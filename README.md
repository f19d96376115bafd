# Sensorino byte-level cores in Dafny

Sensorino is firmware for small radio sensor nodes and their base station.
This project models the parts of it that are pure byte and string logic,
and proves what they do.

- **BER-TLV hex decoder** (`tlv.dfy`, `tlv_roundtrip.dfy`).
  - It reads a one- or two-byte tag and a short- or long-form length, following the identifier- and length-octet rules of ITU-T X.690, sections 8.1.2 and 8.1.3.
  - It recurses into constructed elements.
  - It records warnings and errors instead of aborting.
  - A hex encoder is its partner: decoding an encoded tree gives the tree back with no diagnostics.
- **Message buffer** (`message.dfy`).
  - A 28-byte raw array holds an 8-byte header and appended `0x1F, type, length, value` entries.
  - The header accessors, the add methods and `find` are modelled.
  - Add-then-find is proved, with the float read of `find` corrected: as written it shifts a 16-bit `int` past its width (see Findings).
- **Radio payload framing** (`protocol.dfy`, `base_packet.dfy`).
  - Covers the control, error and service payloads, the radio packet, and the base-station packet.
  - Every make/unmake pair is proved inverse in both directions.
- **Rule store** (`rule_store.dfy`).
  - EEPROM holds rules packed as `id, condLen, actLen, condition…, action…` and ended by `0xff`.
  - Covers find, create, truncate-delete and store initialisation, plus the 10-slot variable cache.
- **Fragmentation** (`fragmented.dfy`).
  - Splits a datagram into fragments, each ending in an id-and-more-flag trailer byte.
  - Reassembles fragments received from the layer below.
- **Service registry** (`registry.dfy`): add, delete with left shift, and lookup by id and by index.
- **JSON helpers**:
  - `json_converter.dfy`: the `putch` stream framer, the header written for a message, and the header checks on an incoming JSON tree.
  - `sensorino_json.dfy`: the array splitter, the `data` object cutter, and the type-name matchers.

Code that updates state in place is modelled as classes over arrays, with methods. Each method is specified by a function over sequences, and the source's promises are proved about those functions. Pure code is modelled as functions and lemmas.

The layers below are parameters of the model:
- the radio driver;
- the reliable-datagram layer;
- the serial line;
- the aJson library.

## Model

| member | source | states |
|---|---|---|
| TlvDecoder.EmvInt | Sensorino/python/tlv.py:33-34 | a hex literal is accepted exactly when it is non-empty and all hex digits; otherwise the failure names the literal |
| TlvDecoder.EmvBerLen | Sensorino/python/tlv.py:36-48 | a first byte below 128 is the length itself and the extra offset is 0; otherwise the first byte is 128+more, and the next `more` bytes give the length with extra offset `more` |
| TlvDecoder.StripSw | Sensorino/python/tlv.py:53-54 | exactly the last four characters are removed (nothing is left of a shorter input), and the result is a prefix of the input |
| TlvDecoder.Start | Sensorino/python/tlv.py:78-81 | the top-level loop starts from the whole input, or with strip set from the input less its last four characters (nothing when it is shorter) |
| TlvDecoder.ReadHeader | Sensorino/python/tlv.py:100-120 | the tag is the first 4 characters, upper-cased, when the first byte has `(b & 0x1F) == 0x1F`, and otherwise the first 2; the element is constructed exactly when bit 0x20 is set; the value starts at least 4 characters in |
| TlvDecoder.SplitTlv | Sensorino/python/tlv.py:100-131 | the value is at most 2*claimed_length characters; value and rest are strictly shorter than the input, so the model's loop terminates (the source's does not on a signed length, see Findings); a short value leaves nothing after it |
| TlvDecoder.PyHexInt | Sensorino/python/tlv.py:33-34 | int(x, 16) with an optional sign: it agrees with EmvInt wherever EmvInt accepts, and a negative result comes only from a leading minus |
| TlvDecoder.PySlice | Sensorino/python/tlv.py:113-120 | Python's `s[lo:hi]` for any integer bounds: never longer than s, and the model's Slice for non-negative bounds |
| TlvDecoder.PyDrop | Sensorino/python/tlv.py:114-120 | Python's `s[lo:]` for any integer bound: never longer than s, and the model's Drop for a non-negative bound |
| TlvDecoder.EmvBerLenAsWritten | Sensorino/python/tlv.py:36-48 | emv_ber_len with the signed read; wherever the model's EmvBerLen succeeds it returns the same length and offset |
| TlvDecoder.SplitTlvAsWritten | Sensorino/python/tlv.py:100-131 | get_one_tlv with the signed length and Python's slices; the rest is never longer than the input |
| TlvRoundTrip.SplitTlvAsWrittenAgrees | Sensorino/python/tlv.py:100-131 | wherever the model's SplitTlv succeeds, get_one_tlv as written returns the same tag, flag, length, value and rest |
| TlvRoundTrip.SignedLengthKeepsBuffer | Sensorino/python/tlv.py:41-44 | after any one-byte tag, the length field `-2` gives length -2, an empty value and the whole input as the rest |
| TlvRoundTrip.SignedLengthNeverEnds | Sensorino/python/tlv.py:83-98 | on such an input the parse loop as written is still looping after any number of turns |
| TlvRoundTrip.SignedLengthRejected | Sensorino/python/tlv.py:83-98 | the model reads the same input as one failed item with the cause `-2`, and its level ends |
| TlvDecoder.SliceIdentity | Sensorino/python/tlv.py:113-120 | header, value slice and rest concatenate back to the input, and a slice shorter than asked leaves an empty rest |
| TlvDecoder.SplitTlvCovers | Sensorino/python/tlv.py:113-120 | the header, the value and the rest of one element concatenate back to the input |
| TlvDecoder.Tlv.constructor | Sensorino/python/tlv.py:60-71 | the new object holds the tree, errors and warnings of `Build(hexstring, strip)` |
| TlvDecoder.Tlv.Parse | Sensorino/python/tlv.py:73-98 | the parse loop appends exactly the items, errors and warnings of the level that starts at the (optionally stripped) input |
| TlvDecoder.Tlv.ParseOne | Sensorino/python/tlv.py:84-98 | one loop iteration: what remains is strictly shorter, and the three lists advance in step with the level's specification |
| TlvDecoder.Tlv.AppendItem | Sensorino/python/tlv.py:90-94 | a constructed value is appended as a nested TLV parsed without stripping, and a primitive value as its string |
| TlvDecoder.Tlv.GetOneTlv | Sensorino/python/tlv.py:100-131 | returns the split of the input, and adds a warning exactly when the value is short |
| TlvRoundTrip.HexValueOfHexOf | Sensorino/python/tlv.py:33-34 | int(x, 16) of the upper-case hex of a byte string is its big-endian value |
| TlvRoundTrip.EncodeLengthRoundTrip | Sensorino/python/tlv.py:36-48 | emv_ber_len decodes every X.690 length encoding back to its length and width |
| TlvRoundTrip.ShortLengthRoundTrip | Sensorino/python/tlv.py:42-44 | a length below 128 is one byte wide, with extra offset 0 |
| TlvRoundTrip.LongLengthRoundTrip | Sensorino/python/tlv.py:46-48 | a long-form length of `more` big-endian bytes decodes back, with extra offset `more` |
| TlvRoundTrip.TagPrefix | Sensorino/python/tlv.py:102-110 | the first tag byte is read from the first two characters, and the whole tag is read upper-cased |
| TlvRoundTrip.HeaderOfEncoded | Sensorino/python/tlv.py:102-120 | an encoded tag and length are read back as that tag, that length and that header width |
| TlvRoundTrip.SplitEncoded | Sensorino/python/tlv.py:100-131 | get_one_tlv on an encoded element returns its tag, its constructed flag and its content at full length, and the rest is the text after it |
| TlvRoundTrip.RoundTrip | Sensorino/python/tlv.py:73-98 | parsing the encoding of well-formed elements returns them, nested where constructed, with no error and no warning |
| TlvRoundTrip.BuildRoundTrip | Sensorino/python/tlv.py:60-83 | the same holds for the TLV object, with strip off, and with strip on after a 4-character status word |
| TlvRoundTrip.LevelShape | Sensorino/python/tlv.py:83-98 | every level has at most one error; an error's sentinel item is the last item; all earlier items carry tags; warnings never outnumber items; empty input yields no items |
| TlvRoundTrip.StripShortInput | Sensorino/python/tlv.py:78-83 | with strip set, an input of at most 4 characters yields no items and no diagnostics |
| MessageBuffer.NextId | bozo/Message.cpp:26-28 | the next id is below MAX_MESSAGE_ID (253) and follows the previous one modulo 253 |
| MessageBuffer.Message.constructor | bozo/Message.cpp:25-35 | the id counter advances, the new id is stored in raw[3], the source in raw[0] and the destination in raw[1], and rawLen is the header length |
| MessageBuffer.Message.FromRaw | bozo/Message.cpp:37-48 | a length outside 8..28 gives a header-only GARBAGE message; otherwise exactly `len` bytes are copied and rawLen is `len` |
| MessageBuffer.Message.SetId | bozo/Message.cpp:64-66 | raw[3] becomes the id and no other byte changes |
| MessageBuffer.Message.SetSrcAddress | bozo/Message.cpp:72-74 | raw[0] becomes the address and no other byte changes |
| MessageBuffer.Message.SetDstAddress | bozo/Message.cpp:80-82 | raw[1] becomes the address and no other byte changes |
| MessageBuffer.Message.SetType | bozo/Message.cpp:88-90 | raw[2] becomes the type and no other byte changes |
| MessageBuffer.Message.AddIntBytes | bozo/Message.cpp:156-162 | writes sizeof(int) (2) bytes of the value big-endian at the offset, changes nothing else, and returns 2 |
| MessageBuffer.Message.AddIntValue | bozo/Message.cpp:164-174 | appends `0x1F, t, 2` and the value big-endian, advances rawLen by 5, and leaves the header and earlier entries intact |
| MessageBuffer.Message.AddDataTypeValue | bozo/Message.cpp:199-201 | appends the data type as an int entry of type DATATYPE |
| MessageBuffer.Message.AddFloatValue | bozo/Message.cpp:185-197 | appends `0x1F, t, 4` and the 32-bit pattern least-significant byte first (7 bytes) |
| MessageBuffer.Message.AddBoolValue | bozo/Message.cpp:203-211 | appends `0x1F, t, 1, !!value` (4 bytes) |
| MessageBuffer.Message.Find | bozo/Message.cpp:104-154 | the scan returns what the entry-level specification gives: the num-th entry of type t decoded, or 0 when its length byte is too small, reading passes byte 28, or no such entry exists; floats are read by the corrected read of the Findings |
| MessageBuffer.FindFromEncoded | bozo/Message.cpp:104-113 | over a buffer of encoded entries, the byte scan equals the search over the entries themselves, skipping each by its length byte |
| MessageBuffer.FindAfterAppend | bozo/Message.cpp:104-113 | after an append, the new entry is found at index "number of earlier entries of its type", and earlier finds are unchanged |
| MessageBuffer.DecodeEncodedValues | bozo/Message.cpp:119-148 | an int reads back as the same 16-bit signed value, a float as the same bit pattern under the corrected read, and a bool as 0/1 |
| MessageBuffer.AddThenFind | bozo/Message.cpp:104-154 | in a message built by appends, find returns the value just added and earlier values as before, floats by the corrected read |
| MessageBuffer.PromotedShl | bozo/Message.cpp:134-136 | `b << s` on a uint8_t promoted to int is defined exactly when s is below the width of int, and is then b·2^s read as a two's complement int of that width |
| MessageBuffer.FloatRead | bozo/Message.cpp:133-137 | the float read as written is defined exactly when int is 32 bits wide |
| MessageBuffer.FloatReadOnTarget | bozo/Message.cpp:133-137 | with the 16-bit int of the AVR target every float read is undefined |
| MessageBuffer.FloatReadOn32BitInt | bozo/Message.cpp:133-137 | with a 32-bit int the read gives the 32-bit pattern of the four bytes, least significant first |
| MessageBuffer.OrDisjoint | bozo/Message.cpp:133-137 | ORing a value below 2^n into a multiple of 2^n is adding it |
| RadioProtocol.TaggedRoundTrip | Sensorino_Protocol.cpp:102-121 | unmaking a control or error payload returns the type, the data length and the data it was made from |
| RadioProtocol.TaggedRoundTripBack | Sensorino_Protocol.cpp:115-121 | remaking an unmade payload reproduces its first totlen bytes |
| RadioProtocol.MakeCtrlPayload | Sensorino_Protocol.cpp:102-107 | byte 0 holds the control type and the data follows from byte 1; later bytes are untouched |
| RadioProtocol.UnmakeCtrlPayload | Sensorino_Protocol.cpp:115-121 | the type is byte 0, the length is totlen-1 and the data is bytes 1.. |
| RadioProtocol.MakeErrorPayload | Sensorino_Protocol.cpp:123-128 | the same layout with the error type |
| RadioProtocol.UnmakeErrorPayload | Sensorino_Protocol.cpp:136-142 | the same parse with the error type |
| RadioProtocol.ServiceRoundTrip | Sensorino_Protocol.cpp:145-172 | unmaking a service payload returns every service id up to 0xFFFF, the instance, the data format and the data |
| RadioProtocol.ServiceRoundTripBack | Sensorino_Protocol.cpp:163-172 | remaking an unmade service payload reproduces its first totlen bytes |
| RadioProtocol.MakeServicePayload | Sensorino_Protocol.cpp:145-154 | low byte of the service at 0, high byte at 1, instance at 2, format at 3, data from 4 |
| RadioProtocol.UnmakeServicePayload | Sensorino_Protocol.cpp:163-172 | the service is `byte1<<8 + byte0` and the length is totlen-4 |
| RadioProtocol.SendFrame | Sensorino_Protocol.cpp:64-74 | the packet handed to the radio is totlen = len+7 bytes long |
| RadioProtocol.BuildPacket | Sensorino_Protocol.cpp:64-74 | address in bytes 0-3, type in byte 4, data from byte 5, and two bytes beyond the data that were never written |
| RadioProtocol.Receive | Sensorino_Protocol.cpp:77-99 | on a received frame, the sender is bytes 0-3, the type is byte 4, the length is totlen-5 and the data is bytes 5..; sender bytes from 4 and data bytes past the length are kept; with no frame nothing is written |
| RadioProtocol.SendReceiveAsWritten | Sensorino_Protocol.cpp:57-99 | the receiver of a sent packet gets len+2 data bytes: the data and then two stale bytes |
| RadioProtocol.SendFrameFixed | Sensorino_Protocol.cpp:64-74 | the corrected packet is len+5 bytes long |
| RadioProtocol.SendReceiveFixed | Sensorino_Protocol.cpp:57-99 | with totlen = len+5, the receiver gets back the sender, the type and exactly the data |
| RadioProtocol.ControlSendData | Sensorino_Protocol.cpp:109-113 | sendControl hands over len+1 bytes, which unmake back to the control type and the data |
| RadioProtocol.ServiceSendData | Sensorino_Protocol.cpp:156-161 | sendService hands over only len+1 bytes of the len+4 byte payload |
| RadioProtocol.ServiceSendLosesData | Sensorino_Protocol.cpp:156-161 | the len+1 bytes sendService hands to send unmake to len-3 data bytes: the last three are lost |
| RadioProtocol.ServiceSendReceived | Sensorino_Protocol.cpp:57-99 | end to end through send and receive as written, the receiver unmakes the right service, instance and format but len-1 data bytes: the first len-3 data bytes, then the two stale bytes send never writes |
| RadioProtocol.ServiceSendDataFixed | Sensorino_Protocol.cpp:156-161 | handing over len+4 bytes lets the receiver unmake exactly the service, instance, format and data |
| BasePacket.BasePacketBytes | Sensorino.cpp:75-85 | a base packet is 6+len bytes long |
| BasePacket.ComposeBasePacket | Sensorino.cpp:75-85 | address in 0-3, `service & 0xFF` in 4, `(service>>8) & 0xFF` in 5, data from 6; later bytes untouched |
| BasePacket.DecomposeBasePacket | Sensorino.cpp:102-112 | the sender is bytes 0-3, the service is `packet[4]<<8 + packet[5]`, the length is totlen-6 and the data is bytes 6.. |
| BasePacket.BuildBasePacket | Sensorino.cpp:46-58 | the packets for base and broadcast are exactly 6+len bytes, laid out as composeBasePacket lays them out |
| BasePacket.ReceiveBase | Sensorino.cpp:61-72 | a received frame is decomposed and its pipe reported, keeping sender bytes from 4 and data bytes past the length; with no frame nothing is written |
| BasePacket.ComposeDecomposeAsWritten | Sensorino.cpp:102-112 | composing then decomposing returns the sender, the length and the data, but the service with its two bytes swapped; the service comes back unchanged only when it is a multiple of 257 |
| BasePacket.SwapFixedPoints | Sensorino.cpp:108 | swapping the bytes of a 16-bit value leaves it unchanged exactly when it is a multiple of 257 |
| BasePacket.SwappedServiceExample | Sensorino.cpp:108 | service 0x0102 is decomposed as 0x0201 |
| BasePacket.ComposeDecomposeFixed | Sensorino.cpp:75-112 | with the bytes read in compose's order, decomposing a composed packet returns everything unchanged |
| BasePacket.DecomposeComposeFixed | Sensorino.cpp:102-112 | recomposing a decomposed packet reproduces its first totlen bytes |
| ServiceRegistry.IndexById | Sensorino/Sensorino.cpp:53-59 | finds the first registered service with the id, or reports that none has it |
| ServiceRegistry.Without | Sensorino/Sensorino.cpp:41-50 | removing a registered service shortens the list by one; removing an absent one changes nothing |
| ServiceRegistry.WithoutAt | Sensorino/Sensorino.cpp:48-50 | removal is the left shift: the entries before index i, then those after it, in order |
| ServiceRegistry.WithoutKeepsDistinct | Sensorino/Sensorino.cpp:48-50 | deleting keeps service ids distinct |
| ServiceRegistry.Sensorino.AddService | Sensorino/Sensorino.cpp:28-36 | dies when full (MAX_SERVICES = 20) or when the id is already taken; otherwise appends the service; ids stay distinct |
| ServiceRegistry.Sensorino.DeleteService | Sensorino/Sensorino.cpp:38-51 | dies exactly when the service is not registered; otherwise removes it, keeps the others in order and keeps ids distinct |
| ServiceRegistry.Sensorino.GetServiceById | Sensorino/Sensorino.cpp:53-59 | returns the first registered service with that id, or NULL when none has it |
| ServiceRegistry.Sensorino.GetServiceByNum | Sensorino/Sensorino.cpp:61-63 | returns the num-th service, or NULL when num >= servicesNum |
| RuleStore.RuleIndex | Sensorino/RuleService.h:273-291 | the index of the first rule with the id; the terminator's position for 0xff; otherwise -1 |
| RuleStore.HeaderBytes | Sensorino/RuleService.h:285-287 | at each rule's offset the store holds its id and two lengths, and the next rule starts 3+condLen+actLen further on |
| RuleStore.SetKeepsStoreSound | Sensorino/RuleService.h:143-182 | a SET leaves a well-formed store with unique ids that is unchanged, a proper prefix of the old rules (truncated), or the old rules extended by one rule |
| RuleStore.SetRefusesDuplicate | Sensorino/RuleService.h:176-179 | creating a rule whose id is already stored changes nothing and replies with an error |
| RuleStore.FindSlot | Sensorino/RuleService.h:465-471 | the first cache slot holding (servId, type, num), or none |
| RuleStore.FreeSlot | Sensorino/RuleService.h:473-483 | the first cache slot whose serviceId is 0xff, or none |
| RuleStore.CacheThenFind | Sensorino/RuleService.h:465-483 | once a variable is cached in a free slot, findVariable finds it in that slot |
| RuleStore.RuleService.constructor | Sensorino/RuleService.h:17-24 | the store is validated, it holds the persisted rules when the magic byte is present and none otherwise, and every cache slot is free |
| RuleStore.RuleService.ValidateStore | Sensorino/RuleService.h:132-140 | with the magic byte 0xab present nothing changes; otherwise an empty store and the magic byte are written |
| RuleStore.RuleService.GetByte | Sensorino/RuleService.h:114-121 | reads the EEPROM byte at BASE_ADDR + addr |
| RuleStore.RuleService.SetByte | Sensorino/RuleService.h:123-130 | writes the EEPROM byte at BASE_ADDR + addr and no other |
| RuleStore.RuleService.FindRule | Sensorino/RuleService.h:273-291 | returns the offset of the first rule with the id, or -1; for 0xff, the terminator's offset |
| RuleStore.RuleService.CreateRule | Sensorino/RuleService.h:248-271 | when `offset+4+condLen+actLen` exceeds RULE_STORE_SIZE, replies with an error and leaves the store unchanged; otherwise the store gains the rule |
| RuleStore.RuleService.WriteRule | Sensorino/RuleService.h:260-270 | id, both lengths, condition and action are written at the offset, followed by a 0xff terminator, and nothing else changes |
| RuleStore.RuleService.PutBytes | Sensorino/RuleService.h:264-268 | the byte loops write their bytes consecutively |
| RuleStore.CreatedStore | Sensorino/RuleService.h:252-270 | the bytes createRule writes at the terminator hold the old rules followed by the new one |
| RuleStore.TruncatedStore | Sensorino/RuleService.h:159-160 | writing 0xff over a rule's id leaves exactly the rules before it |
| RuleStore.RuleService.OnSet | Sensorino/RuleService.h:143-182 | a SET creates, refuses or truncates as the rule-level specification says; deleting an absent rule writes 0xff to EEPROM byte 63, just outside the store |
| RuleStore.RuleService.OnSetFixed | Sensorino/RuleService.h:143-182 | the same store and replies, without a write outside the store |
| RuleStore.RuleService.FindVariable | Sensorino/RuleService.h:465-471 | returns the slot matching (servId, type, num), or NULL |
| RuleStore.RuleService.CacheVariable | Sensorino/RuleService.h:473-483 | claims the first free slot for the variable and changes no other slot, or returns NULL and changes nothing when the cache is full |
| Fragmentation.Trailer | Sensorino/FragmentedDatagram.h:18-22 | the trailer's low seven bits are the message id's, and its 0x80 flag is set exactly when more fragments follow |
| Fragmentation.FragmentsCover | Sensorino/FragmentedDatagram.h:12-24 | the fragment payloads, in order, concatenate to the whole buffer |
| Fragmentation.FragmentSizes | Sensorino/FragmentedDatagram.h:13-14 | every fragment is 2..fragMax bytes long, and all but the last are exactly fragMax |
| Fragmentation.FragmentFlags | Sensorino/FragmentedDatagram.h:18-22 | only the last fragment has the 0x80 flag clear |
| Fragmentation.FragmentIds | Sensorino/FragmentedDatagram.h:18 | the k-th fragment's trailer carries the low bits of msgId+k |
| Fragmentation.IdAfterCounts | Sensorino/FragmentedDatagram.h:18 | after k fragments msgId has advanced by k, modulo 256 |
| Fragmentation.RestartForgetsEarlier | Sensorino/FragmentedDatagram.h:57-65 | a fragment that breaks the id sequence starts reassembly afresh, as if nothing had been received |
| Fragmentation.BytesBeforeLast | Sensorino/FragmentedDatagram.h:12-14 | the bytes sent before the last fragment: none exactly when the datagram fits one fragment, and always fewer than the datagram |
| Fragmentation.FragmentRoundTrip | Sensorino/FragmentedDatagram.h:8-79 | delivering the fragments of a buffer reassembles exactly that buffer when the bytes before its last fragment are at most totalMax-fragMax, and fails otherwise |
| Fragmentation.RoundTripFrom | Sensorino/FragmentedDatagram.h:50-78 | fragments continuing an accumulated prefix append their payloads to it, and fail exactly when the prefix plus the bytes before the last fragment exceed totalMax-fragMax |
| Fragmentation.FragmentedDatagram.constructor | Sensorino/FragmentedDatagram.h:4-5 | the datagram keeps its fragMax, totalMax and starting msgId |
| Fragmentation.FragmentedDatagram.SendToWait | Sensorino/FragmentedDatagram.h:8-31 | sends the fragments in order and stops after the first failed send, returning false; returns true when all were sent (nothing is sent for len 0); msgId advances once per fragment sent |
| Fragmentation.FragmentedDatagram.RecvFromAck | Sensorino/FragmentedDatagram.h:33-79 | fails on a failed or short (<2 byte) receive or when out of space; otherwise the buffer holds the reassembled datagram |
| Fragmentation.FragmentedDatagram.Absorb | Sensorino/FragmentedDatagram.h:55-67 | takes the trailer as the new id, and either appends the payload or moves it to the front on an id break |
| Fragmentation.FragmentedDatagram.MoveToFront | Sensorino/FragmentedDatagram.h:61-64 | the copy loop moves the fragment's bytes to the start of the buffer |
| Fragmentation.FragmentedDatagram.Deliver | Sensorino/FragmentedDatagram.h:51-52 | the lower layer writes the frame at fragBuf, and the bytes before it are kept |
| JsonConverter.Inc8 | Base/MessageJsonConverter.cpp:287 | nest_depth++ wraps modulo 256 |
| JsonConverter.Dec8 | Base/MessageJsonConverter.cpp:289 | nest_depth-- wraps modulo 256 |
| JsonConverter.Bracket | Base/MessageJsonConverter.cpp:285-303 | an opener raises the 8-bit depth by one and a closer lowers it; a closer that takes the depth, read as int8_t, to 0 or below empties the buffer and zeroes the depth every time, and the text becomes the object only when none is pending; other characters are only stored |
| JsonConverter.Step | Base/MessageJsonConverter.cpp:271-305 | drops characters ≤ ' ' outside strings and everything once the buffer holds 127 characters; otherwise stores the character, and then a backslash in a string sets escape, an unescaped quote toggles quote, and outside strings brackets act as Bracket states; an object is only ever completed by a closer, from the collected text |
| JsonConverter.StepFixed | Base/MessageJsonConverter.cpp:271-305 | the same, except that the character after a backslash is stored, clears the escape and has no other effect |
| JsonConverter.PlainRun | Base/MessageJsonConverter.cpp:272-290 | printable characters other than quotes and brackets are collected unchanged |
| JsonConverter.QuotedRun | Base/MessageJsonConverter.cpp:279-284 | inside a string, its contents are collected unchanged, whitespace included: characters other than quote and backslash, and with the corrected escape also backslash pairs with any second byte |
| JsonConverter.RunPiece | Base/MessageJsonConverter.cpp:271-305 | inside an object, an atom, whitespace, a string (with escape pairs under the corrected escape, without a backslash as written) or a nested bracketed group is collected without its whitespace outside strings, and the depth is as before |
| JsonConverter.RunPieces | Base/MessageJsonConverter.cpp:271-305 | the same for a sequence of such pieces |
| JsonConverter.FramesObject | Base/MessageJsonConverter.cpp:271-305 | between objects, a bracketed group of such pieces that fits the buffer is framed whole (without outer whitespace), becomes the object unless one is pending, and leaves the buffer empty at depth 0 |
| JsonConverter.FramesStream | Base/MessageJsonConverter.cpp:271-305 | fed a stream of such objects, a fresh framer keeps the first as its object and ends ready for the next |
| JsonConverter.FramesToMember | Base/MessageJsonConverter.cpp:271-305 | `{"to": 1}` is framed as `{"to":1}` |
| JsonConverter.EscapeNeverClears | Base/MessageJsonConverter.cpp:281-284 | once escape is set inside a string, it stays set, the string never ends, and no object completes |
| JsonConverter.EscapedBackslashStallsFramer | Base/MessageJsonConverter.cpp:281-284 | after the input `["\` nothing that follows ever completes an object |
| JsonConverter.FixedFramesEscapedBackslash | Base/MessageJsonConverter.cpp:281-284 | with the corrected escape, `["\\"]` is framed as one object, as an instance of FramesObject |
| JsonConverter.MessageJsonConverter.constructor | Base/MessageJsonConverter.cpp:264-269 | the framer starts empty, at depth 0, outside strings |
| JsonConverter.MessageJsonConverter.Putch | Base/MessageJsonConverter.cpp:271-305 | the object's buffer, length, depth, quote and escape fields make one framer step |
| JsonConverter.TypeName | Base/MessageJsonConverter.cpp:29-47 | PUBLISH, SET, REQUEST, ERR and GARBAGE have their own names, and every other type is "unknown" |
| JsonConverter.HeaderToJson | Base/MessageJsonConverter.cpp:23-54 | the header is a "type" member followed by "from" holding the source address |
| JsonConverter.ParseType | Base/MessageJsonConverter.cpp:234-243 | exactly "publish", "set", "request" and "err" are accepted, each as the type with that name |
| JsonConverter.TypeNameRoundTrip | Base/MessageJsonConverter.cpp:29-47 | the name written for each of the four accepted types is read back as that type |
| JsonConverter.GetObjectItem | Base/MessageJsonConverter.cpp:212-220 | a member is found exactly when one has the name, ignoring case, and the value of the first such member is returned |
| JsonConverter.ToUint8 | Base/MessageJsonConverter.cpp:215 | the assignment to uint8_t keeps the value modulo 256 |
| JsonConverter.ScanMembers | Base/MessageJsonConverter.cpp:224-255 | the member loop succeeds exactly when every member is accepted, and it never changes "to" or "from" |
| JsonConverter.JsonToHeader | Base/MessageJsonConverter.cpp:204-262 | a message results only from an object with an integer "to", and an integer or absent "from" (0 when absent), all of whose members are accepted |
| JsonConverter.HeaderRoundTrip | Base/MessageJsonConverter.cpp:204-262 | the header written for a message, plus its "to", is read back as the same source, destination and type |
| JsonConverter.HeaderAloneRefused | Base/MessageJsonConverter.cpp:212-214 | the written header alone has no "to" and is refused |
| SensorinoJson.UpperPrefixInvariance | Sensorino_JSON.cpp:114-137 | prefix matching ignores case and whatever follows the prefix |
| SensorinoJson.StringToMessageType | Sensorino_JSON.cpp:114-138 | CONTROL, ERROR, PUBLISH, SET and REQUEST, each as a case-insensitive prefix, give CTRL, ERR, PUBLISH, SET and REQUEST, both ways |
| SensorinoJson.MessageTypeToString | Sensorino_JSON.cpp:93-111 | the type's lower-case name in double quotes |
| SensorinoJson.MessageTypeRoundTrip | Sensorino_JSON.cpp:93-137 | the name written for a message type is read back as that type |
| SensorinoJson.MessageTypeIgnoresCaseAndTail | Sensorino_JSON.cpp:114-137 | the matcher gives the same type for any case and any tail |
| SensorinoJson.StringToControlType | Sensorino_JSON.cpp:158-166 | PING, PONG, ADVERT and TIMESYNCH, each as a case-insensitive prefix, both ways |
| SensorinoJson.ControlTypeToString | Sensorino_JSON.cpp:141-156 | the control type's name in double quotes |
| SensorinoJson.ControlTypeRoundTrip | Sensorino_JSON.cpp:141-166 | the name written for a control type is read back as that type |
| SensorinoJson.JsonToBoolean | Sensorino_JSON.cpp:80-90 | true exactly when the value is found and begins with "true" in any case |
| SensorinoJson.ScanEnd | Sensorino_JSON.cpp:32-50 | the scan stops at the first `]` met at level 0, or at the end of the line |
| SensorinoJson.StartsMeaning | Sensorino_JSON.cpp:35-45 | the recorded offsets, in increasing order, are those just after the top-level `[` and after each `,` at level 1 |
| SensorinoJson.JsonToStringArray | Sensorino_JSON.cpp:26-52 | for NULL the length is 0; otherwise arr holds exactly the element offsets before the stop, and the length is their number |
| SensorinoJson.FirstBalanced | Sensorino_JSON.cpp:292-304 | the first position after k where braces balance, or 0 when there is none |
| SensorinoJson.ObjectLengthMeans | Sensorino_JSON.cpp:288-307 | a positive length is that of the shortest balanced `{…}` prefix, which ends in `}`; 0 means the value does not start with `{` or is never closed |
| SensorinoJson.ParseData | Sensorino_JSON.cpp:288-307 | copies the balanced object, both braces included, NUL-terminates it and returns its length; returns 0 and writes nothing otherwise |

## Left out

- I/O and hardware: the radio driver (NRF24), SPI registers, EEPROM register access (replaced by a byte array), serial printing in composeBasePacket/decomposeBasePacket and elsewhere, timers, interrupts, sleep modes, `millis`.
- The layers below are parameters. sendtoWait is told which lower-layer send fails, if any. recvfromAck is given the sequence of frames the lower layer returns. Radio addresses, flags and the busy-wait for `available()` in recvfromAck are not modelled.
- `die` prints a panic and loops forever; the registry methods return a `Died` outcome instead.
- RuleService `evalExpression`, `getVariableValue`'s float result, `evalPublish` and `onRequest`: float arithmetic and message dispatch.
- The RAM variant of the rule store (`#ifndef EEPROM`, RuleService.h:96-109) is not modelled; the EEPROM variant is the one compiled.
- RuleStore.RuleService.constructor: requires that EEPROM carrying the magic byte holds a store this code wrote; other EEPROM content has no defined meaning.
- RuleStore.RuleService.OnSet: the message is given as its decoded COUNT, EXPRESSION and MESSAGE values; a missing COUNT is the `ruleId` None case. Condition and action lengths are below 256, because they are stored in one byte.
- bozo/Message.cpp `send`, `getRawData`, `getRawLength`, `addInt`, `dataTypeToString` and the binary and float conversions: they are calls into the radio layer or trivial accessors. The float value itself is only its 32-bit pattern.
- MessageBuffer.Message.AddIntValue, AddFloatValue, AddBoolValue, AddDataTypeValue: require room in the 28-byte buffer. Writing past it is undefined behaviour in C and has no meaning to model.
- MessageBuffer.GARBAGE: no header defines the GARBAGE enumerator. The model gives it the value 8, after CONFIG = 7.
- Bytes that C leaves uninitialised (the raw array of a new message, a stack packet's tail) are modelled as 0, or as a parameter where their value matters (the two stale bytes of `send`).
- ServiceRegistry.Sensorino.DeleteService and ServiceRegistry.Sensorino.GetServiceById: the source uses `serviceNum` and `service`, which are not declared. They are read as the declared `servicesNum` and `services`.
- ServiceRegistry.Sensorino.GetServiceByNum: takes a natural number; the source's negative `num` would index before the array.
- Fragmentation.FragmentedDatagram.RecvFromAck: assumes each frame the lower layer returns is at most fragMax bytes. This is an assumption of the model, not a guarantee of the source: the source passes `&fragLen` as the capacity before giving `fragLen` a value (Sensorino/FragmentedDatagram.h:36, 51), so the capacity the lower layer sees is undefined.
- JsonConverter: `aJson.parse` is a library call and is not modelled; the framer records the text it would parse.
- JsonConverter.MessageJsonConverter: Base/MessageJsonConverter.h declares `obj` and `obj_str` but not `obj_str_len`, `nest_depth`, `quote` or `escape`. The model assumes `nest_depth` is a `uint8_t`; the `(int8_t)` cast makes the framing the same for a signed 8-bit type.
- JsonConverter.GetObjectItem: aJson's name comparison is assumed case-insensitive, like the strcasecmp in the member loop.
- `payloadToJson`, `messageAddElem` and `lower()` are not modelled. `messageAddElem` is the `addElem` parameter of the header check. `lower()` is used only by `payloadToJson`, and it returns nothing for characters outside A-Z.
- Sensorino_JSON.cpp: these are not modelled:
  - `JSONsearchDataName`, whose pointer arithmetic accumulates and which dereferences NULL;
  - `readSerial` (serial and clock);
  - `JSONtoDouble` and `JSONtoULong` (float and number parsing);
  - `makeJSON*` and `parseAddress` (itoa/strcat into caller buffers);
  - `errorTypeToString` and `stringToErrorType`.
- SensorinoJson.JsonToBoolean and SensorinoJson.ParseData: take the string that `JSONsearchDataName` would find as a parameter.
- SensorinoJson.ParseData: requires `buff` to be large enough; the source writes past any buffer.
- SensorinoJson.JsonToStringArray: requires `arr` to hold every offset recorded; the source writes past the array.
- SensorinoJson.StringToMessageType and SensorinoJson.StringToControlType: with no matching prefix, the source falls off the end of a non-void function. The model returns None for that undefined value.
- `sendControl`, `sendError` and `sendService` (Sensorino_Protocol.cpp:109-113, 130-134, 156-161) are declared `boolean` but fall off the end without a return, so their result is undefined; the model gives them no result and models only the bytes they hand to `send`.
- SensorinoJson.StringToControlType: the `ControlType` enum lacks PONG, although the matcher returns it. The model's control type includes it.
- A C string is the characters before its first NUL, so an embedded NUL truncates what each scanner sees.
- TlvDecoder.EmvInt: Python 2's `int(x, 16)` also accepts a sign, surrounding whitespace and a `0x` prefix. The model's decoder accepts only hex digits and treats the rest as parse errors. With a sign, the source's parse loop never ends on some inputs: TlvDecoder.PyHexInt and TlvDecoder.SplitTlvAsWritten model the sign, and Findings records the loop. Whitespace and the `0x` prefix are not modelled.
- The text of errors and warnings is a datatype carrying the same fields; `pretty_print` and `to_ascii` are not modelled.
- Sensorino/Message.cpp does not compile; bozo/Message.cpp, the same class, is modelled instead.

## Findings

| source | as written | input that shows it | evidently intended | confidence | as-written member | corrected member |
|---|---|---|---|---|---|---|
| Sensorino_Protocol.cpp:64 | `send` hands the radio `totlen = len + 7` bytes but fills only `len + 5`; `receive` takes `totlen - 5` bytes as data | any send; data `[1]` arrives as 3 bytes, the 1 followed by two stale bytes | `totlen = len + 5` | high, not executed | RadioProtocol.SendReceiveAsWritten | RadioProtocol.SendReceiveFixed |
| Sensorino_Protocol.cpp:160 | `sendService` passes `len + 1` as the length of the `len + 4` byte service payload | data `[1, 2, 3]`: send gets the 4 header bytes only, and through send (`len + 7`) and receive the receiver unmakes 2 data bytes, both stale | `len + 4` | high, not executed | RadioProtocol.ServiceSendReceived | RadioProtocol.ServiceSendDataFixed |
| Sensorino.cpp:108 | `decomposeBasePacket` reads the service as `packet[4]<<8 + packet[5]`, while compose puts the low byte in packet[4] | service 0x0102 is decomposed as 0x0201 | `packet[5]<<8 + packet[4]` | high, not executed | BasePacket.SwappedServiceExample | BasePacket.ComposeDecomposeFixed |
| Sensorino/RuleService.h:156-160 | deleting an absent rule sends the error but does not return, then calls `setByte(-1, 0xff)` | SET with a COUNT naming no stored rule and no expression or message: EEPROM byte 63 becomes 0xff | return after the error | medium, not executed | RuleStore.RuleService.OnSet | RuleStore.RuleService.OnSetFixed |
| Base/MessageJsonConverter.cpp:281-284 | inside a string a backslash sets `escape`, and nothing clears it; no later quote ends the string | the stream `["\\"]` never completes an object | clear `escape` after the next character | high, not executed | JsonConverter.EscapeNeverClears | JsonConverter.FramesObject |
| bozo/Message.cpp:134-136 | the float read shifts each byte after promoting it to `int`, which is 16 bits wide on the AVR target: `raw[pos++] << 16` and `<< 24` shift by the whole width of `int`, which C++ leaves undefined | `addFloatValue(TEMPERATURE, 1.0f)` then `find(TEMPERATURE, 0, &value)` on the target | cast each byte to `uint32_t` before its shift | high for the AVR target, not executed | MessageBuffer.FloatReadOnTarget | MessageBuffer.DecodeEncodedValues |
| Sensorino/python/tlv.py:117-120 | `emv_int` is `int(x, 16)`, which accepts a sign, so the length field `-2` gives claimed_length -2; the slices `hexstring[4:0]` and `hexstring[0:]` then give an empty value and the whole buffer as the rest | `"00-2"` (also `"0081-3"`): `rest == orig` on every turn, so `while len(rest) > 0` never ends, and a warning is appended on each turn | reject a signed length as a parse error, so that each turn consumes input | medium, not executed | TlvRoundTrip.SignedLengthNeverEnds | TlvRoundTrip.SignedLengthRejected |
