# Oxibus, verified

A Dafny model of the hard parts of Oxibus, a D-Bus implementation, with proofs of what they promise.
Requirements are cited from the D-Bus Specification by section title.

* **Wire codec** (`Bytes`, `Utf8`, `Types`, `ObjectPaths`, `SignatureSpec`, `SignatureErrors`, `Signature`,
  `WireSpec`, `WireProofs`, `WireReread`, `WireLayout`, `WireForm`, `Marshal`, `Unmarshal`): "Type System", "Valid
  Signatures" and "Marshaling (Wire Format)". Encoding and decoding are functions of the absolute offset; the writer
  (a buffer that is padded and patched) and the reader (a cursor) are classes proved to follow them.
* **Messages and framing** (`Header`, `HeaderProofs`, `HeaderForm`, `Message`, `MessageProofs`, `MessageForm`,
  `MessageSuccess`, `Stream`, `StreamProofs`): "Message Format", and reassembly of messages with their descriptors
  from a chunked stream.
* **Name registry** (`Registry`, `RegistryProofs`, `RegistryReplies`, `RegistryHistory`, `Driver`): `RequestName` and
  `ReleaseName` of "Message Bus Messages", as atomic steps, one per acquisition of the table's lock.
* **Authentication** (`Text`, `TextForm`, `SaslServer`, `SaslServerProofs`, `SaslClient`, `SaslAgreement`,
  `SaslForm`): "Authentication Protocol", as two state machines that exchange printed lines.
* **Smaller pairs** (`Descriptors`, `MatchRules`, `MatchRuleProofs`, `MatchRuleForm`, `Addresses`, `AddressForm`):
  descriptor extraction, match rules and server addresses, each with its inverse.

The modules whose names end in `Form`, and `Utf8`, `ObjectPaths` and `RegistryHistory`, state what the formats and
protocols are without the functions that implement them: every byte, letter, word and number is written out, and the
implementing functions are proved to agree with that for all inputs.

Text is the sequence of its UTF-8 bytes. Doubles are 64-bit patterns. Errors are values; their diagnostic strings
are dropped.

## Properties the code does not have

Each is stated with the exact condition under which the code does meet it.

* A string with an embedded NUL is read but not written (`WireReread.NulIsReadButNotWritten`,
  `WireReread.ReadThenWrite`).
* A match rule survives printing and reading only if its values are ASCII: other bytes are pushed as characters one
  by one (`MatchRuleProofs.RuleRoundTripExactly`). The source prints no rules; the printer is the model's own.
* A TCP address survives only if its host holds no comma, and in a list no semicolon either: the host is not
  escaped (`Addresses.TcpRoundTripExactly`, `Addresses.AddressListRoundTrip`).
* What was read is written again as the same bytes only if the padding was zero: the reader skips padding without
  looking at it (`WireReread.RereadBytesExactly`, `WireReread.PaddingIsNotChecked`).
* A received message cannot always be relayed: it may be invalid for its type, hold a NUL, or be pushed over the
  array limit by its new SENDER (`MessageSuccess.RelaySucceedsExactly`, `MessageSuccess.ReceivedButInvalid`,
  `MessageSuccess.ReceivedButFull`).

Where the code departs from the D-Bus Specification the model follows the code:

* a repeat request by the owner does not update its flags (`crates/oxibus-daemon/src/registry.rs:203-205`);
* a `DO_NOT_QUEUE` request leaves an older queue entry of the requester in place
  (`crates/oxibus-daemon/src/registry.rs:236-238`), and a displaced owner goes to the back of the queue
  (`crates/oxibus-daemon/src/registry.rs:223-225`);
* a connection at its limit is refused even for a name it already holds (`crates/oxibus-daemon/src/driver.rs:205-211`);
* an agreement on descriptor passing outlives a CANCEL (`crates/oxibus-auth/src/server.rs:167-181`);
* a parsed message is not validated, a serialised one is (`crates/oxibus-core/src/message.rs:78-120`).

## Model

Rows that begin with *definition* tie a straight-line method to the function that defines its step, so that the
results about that function hold of the method. The other rows are results, or loops and changes of state proved
against their specification.

| member | source | states |
|---|---|---|
| Signature.Parser.ParseOne | crates/oxibus-core/src/signature.rs:24-137 | the recursive descent over one complete type yields what the grammar function yields; on success the cursor stands behind the type and both nesting counters are back where they were |
| Signature.Parser.ParseArray | crates/oxibus-core/src/signature.rs:44-55 | an array code is followed by exactly one complete type; the 33rd array on a path is refused |
| Signature.Parser.ParseStruct | crates/oxibus-core/src/signature.rs:56-88 | fields up to the closing parenthesis, at least one; the 33rd struct or dict entry on a path is refused |
| Signature.Parser.ParseFields | crates/oxibus-core/src/signature.rs:65-79 | the field loop collects complete types until the closing parenthesis |
| Signature.Parser.ParseDictEntry | crates/oxibus-core/src/signature.rs:89-122 | a basic key, one value type and a closing brace, only where dict entries are allowed |
| Signature.ParseSignature | crates/oxibus-core/src/signature.rs:140-161 | the loop over a whole signature text, with its length and ASCII checks |
| Signature.ParseSingleCompleteType | crates/oxibus-core/src/signature.rs:163-172 | exactly one complete type, or an error |
| SignatureSpec.SignatureInverse | crates/oxibus-core/src/signature.rs:24-161 | a text is accepted as a list of types if and only if it is the printed form of that list, has at most 255 bytes, obeys the dict-entry and non-empty-struct rules and stays within 32 arrays and 32 structs or dict entries on every path |
| SignatureSpec.SingleInverse | crates/oxibus-core/src/signature.rs:163-172 | the same equivalence for the single complete type a variant carries |
| SignatureSpec.ParsePrinted | crates/oxibus-core/src/signature.rs:24-137 | a printed type inside any surrounding text and at any nesting is read back as itself if it fits the limits, and is an error otherwise |
| SignatureSpec.PrintParsed | crates/oxibus-core/src/signature.rs:24-137 | whatever the parser accepts prints back to the bytes it consumed and fits the limits |
| SignatureSpec.FitsIffWithinLimits | crates/oxibus-core/src/signature.rs:44-122 | the running counters enforce exactly the path-depth limits stated on the finished type |
| SignatureSpec.PrintedIsUnambiguous | crates/oxibus-core/src/types.rs:97-124 | no two type lists print alike: a printed list that is accepted is read as that list |
| SignatureSpec.ParsedTypesAreReadable | crates/oxibus-core/src/signature.rs:140-172 | no type that comes out of the parser contains an empty struct, which is what makes the reader terminate |
| ObjectPaths.PathsExactly | crates/oxibus-core/src/types.rs:172-194 | a text is an object path if and only if it is a slash, or a slash followed by non-empty words over the 63 listed characters, separated by slashes |
| ObjectPaths.Alphabet | crates/oxibus-core/src/types.rs:184-191 | the byte ranges of the check are the capital and small letters, the digits and the underscore, listed |
| Utf8.ValidExactly | crates/oxibus-core/src/unmarshal.rs:105-117 | text is valid UTF-8 if and only if it is the encoding of a sequence of code points that are no surrogates, up to U+10FFFF |
| WireLayout.BasicTypeCodes | crates/oxibus-core/src/types.rs:35-55 | the one-letter type codes are those of the D-Bus Specification, "Type System" |
| WireLayout.ContainerTypeCodes | crates/oxibus-core/src/types.rs:97-124 | the codes of arrays, structs and dict entries stand in front of or around what they contain |
| WireForm.ValueCodes | crates/oxibus-core/src/types.rs:271-295 | the signature of every kind of value, letter by letter |
| SignatureErrors.RefusalsExactly | crates/oxibus-core/src/signature.rs:44-161 | a printed list of types that follow the grammar is refused exactly if it has more than 255 bytes or nests deeper than 32 arrays or 32 structs and dict entries, each by its own error |
| SignatureErrors.TooLongExactly | crates/oxibus-core/src/signature.rs:140-147 | a text of any content is refused as too long exactly above 255 bytes |
| SignatureSpec.KeysAreBasic | crates/oxibus-core/src/signature.rs:100-104 | the types allowed as dict-entry keys are exactly those of one letter other than the variant |
| Marshal.Marshaler.Align | crates/oxibus-core/src/marshal.rs:31-36 | pads with zero bytes to the next multiple |
| Marshal.Marshaler.WriteRawString | crates/oxibus-core/src/marshal.rs:94-102 | length, bytes and NUL, or an error for an embedded NUL |
| Marshal.Marshaler.WriteSignatureStr | crates/oxibus-core/src/marshal.rs:104-112 | one length byte, bytes and NUL, or an error above 255 bytes; nothing else is checked |
| Marshal.Marshaler.PatchU32 | crates/oxibus-core/src/marshal.rs:85-92 | overwrites four bytes in place and nothing else |
| Marshal.Marshaler.WriteArray | crates/oxibus-core/src/marshal.rs:129-143 | writing a zero length, then the elements, then patching the length appends the same bytes as knowing the length beforehand |
| Marshal.Marshaler.WriteValue | crates/oxibus-core/src/marshal.rs:114-162 | appends exactly the bytes of the wire relation for the value at the current absolute offset, or reports the same error |
| Marshal.Marshaler.WriteValues | crates/oxibus-core/src/marshal.rs:164-169 | the same for a list of values, one after the other |
| Marshal.Marshaler.WriteNumber | crates/oxibus-core/src/marshal.rs:38-83 | numbers of every width, aligned, in two's complement and either byte order |
| Marshal.PatchedHead | crates/oxibus-core/src/marshal.rs:129-143 | patching the length word inside the written buffer leaves the head a known length would have produced |
| Marshal.MarshalBody | crates/oxibus-core/src/marshal.rs:176-185 | a body marshalled from offset 0, with the signature of its values |
| Bytes.FixedBytesAt | crates/oxibus-core/src/marshal.rs:42-83 | which byte of a number stands where, in both byte orders |
| WireLayout.EncStartsAligned | crates/oxibus-core/src/types.rs:57-72 | every value, at every offset, starts at the natural alignment of its type, after padding and nothing else |
| WireLayout.EncShift | crates/oxibus-core/src/marshal.rs:114-162 | the encoding depends on the absolute offset only modulo 8, at any depth of nesting |
| Unmarshal.Unmarshaler.Need | crates/oxibus-core/src/unmarshal.rs:23-32 | reports how many bytes were needed and how many there were, and never lets a read run past the buffer |
| Unmarshal.Unmarshaler.Align | crates/oxibus-core/src/unmarshal.rs:34-42 | skips padding without looking at it and never moves backwards |
| Unmarshal.Unmarshaler.ReadRawString | crates/oxibus-core/src/unmarshal.rs:105-117 | length, UTF-8 text and a NUL; embedded NULs are accepted |
| Unmarshal.Unmarshaler.ReadSignatureStr | crates/oxibus-core/src/unmarshal.rs:119-134 | one length byte, UTF-8 text and a NUL |
| Unmarshal.Unmarshaler.ReadValue | crates/oxibus-core/src/unmarshal.rs:136-210 | total on arbitrary bytes: returns what the wire relation reads for the type, or the same error; the cursor stays in the buffer and never moves backwards; recursion ends by bytes left, then type size |
| Unmarshal.Unmarshaler.ReadArray | crates/oxibus-core/src/unmarshal.rs:168-188 | length check, alignment, the elements, and the demand that they end exactly at the announced length |
| Unmarshal.Unmarshaler.ReadElements | crates/oxibus-core/src/unmarshal.rs:175-180 | the element loop makes progress on every round; a last element may overshoot the announced end |
| Unmarshal.Unmarshaler.ReadNumber | crates/oxibus-core/src/unmarshal.rs:44-103 | numbers of every width, aligned, in two's complement and either byte order |
| Unmarshal.Unmarshaler.ReadVariant | crates/oxibus-core/src/unmarshal.rs:203-208 | the content is read by a type unrelated to the variant, parsed from the bytes just read |
| Unmarshal.Unmarshaler.ReadValues | crates/oxibus-core/src/unmarshal.rs:212-214 | a list of types, one after the other |
| Unmarshal.UnmarshalBody | crates/oxibus-core/src/unmarshal.rs:221-225 | a body read from offset 0 by its signature |
| WireSpec.Dec | crates/oxibus-core/src/unmarshal.rs:136-210 | every success advances by at least one byte and stays inside the buffer, for every type the parser produces |
| WireProofs.WriteThenRead | crates/oxibus-core/src/marshal.rs:114-162 | a well-formed value written at any offset of any buffer, whatever the padding holds, is read back as itself and reading stops where writing stopped |
| WireReread.ReadThenWrite | crates/oxibus-core/src/unmarshal.rs:136-210 | whatever is read from arbitrary bytes has the requested type and is well formed; writing it again at the same offset takes the same bytes up to padding, or is refused exactly when a string inside holds a NUL |
| WireReread.WireRelation | crates/oxibus-core/src/unmarshal.rs:136-210 | for values without embedded NULs, reading succeeds with a value and an end if and only if the value is well formed, the writer accepts it and the buffer holds what the writer writes |
| WireReread.RoundTrip | crates/oxibus-core/src/marshal.rs:114-162 | behind any prefix, before any trailing bytes and in either byte order, what the writer produced for a value is read back as that value if and only if the value is well formed |
| WireReread.RereadBytesExactly | crates/oxibus-core/src/unmarshal.rs:34-42 | writing again a value that was read, without embedded NULs, gives the very bytes that were read if and only if every padding byte among them was zero |
| WireReread.PaddingIsNotChecked | crates/oxibus-core/src/unmarshal.rs:34-42 | an aligned number behind three arbitrary bytes is read, and rewritten as the same bytes only if those were zero |
| WireReread.NulIsReadButNotWritten | crates/oxibus-core/src/marshal.rs:94-102 | a string with a NUL is read but refused by the writer |
| WireForm.ReadExactly | crates/oxibus-core/src/unmarshal.rs:136-210 | a type is read as a value, up to some offset, if and only if the value is of that type and legal and the bytes spell it: a reference written out byte by byte in either order, with padding, lengths and NULs, that shares nothing with reader or writer |
| WireForm.WriteExactly | crates/oxibus-core/src/marshal.rs:114-162 | a legal value without NULs is written at an offset if and only if some bytes there spell it, and what is written spells it |
| WireForm.LegalExactly | crates/oxibus-core/src/types.rs:145-230 | what the reader and writer take for well formed is: characters encoded in UTF-8, paths over the listed alphabet, signatures within the limits, elements of one type, one complete type in a variant |
| WireForm.PathReadExactly | crates/oxibus-core/src/unmarshal.rs:153-162 | a text that stands where an object path is expected is read as one exactly if it is one, and is otherwise refused as an invalid path, by name |
| WireForm.StringReadExactly | crates/oxibus-core/src/unmarshal.rs:105-117 | a string whose length was read is refused for the end of the buffer, for bytes that are not UTF-8, or for what stands in place of its NUL, in this order, and otherwise returned |
| WireForm.BooleanReadExactly | crates/oxibus-core/src/unmarshal.rs:136-152 | a boolean is 0 or 1; any other number is refused by its value |
| WireForm.ShortNumber | crates/oxibus-core/src/unmarshal.rs:23-42 | a number is refused exactly if it does not fit in front of the end of the buffer, with the bytes needed and there |
| WireForm.ArrayRefusals | crates/oxibus-core/src/unmarshal.rs:168-188 | an announced length above 64 MiB is refused as such, one beyond the buffer for the end of the buffer |
| WireForm.WriteRefusals | crates/oxibus-core/src/marshal.rs:94-162 | text is refused exactly if it holds a NUL, a signature exactly above 255 bytes, and elements of more than 64 MiB are refused as too long |
| Header.TypeOfCode | crates/oxibus-core/src/header.rs:20-34 | exactly the codes 1 to 4 are message types, and each type has the code it is read from |
| Header.WritePrefix | crates/oxibus-core/src/header.rs:245-251 | byte order mark, type, flags, version, body length and serial, in the writer's byte order |
| Header.Write | crates/oxibus-core/src/header.rs:245-267 | prefix, field array and padding to a multiple of 8 |
| Header.CollectFields | crates/oxibus-core/src/header.rs:323-345 | fields in order; elements that are no pair or have an unknown code are skipped, known codes with a wrong type are errors |
| Header.ReadHeader | crates/oxibus-core/src/header.rs:312-358 | reads prefix, field array and padding, and returns where the body starts |
| HeaderProofs.FrameLengthsAgree | crates/oxibus-core/src/header.rs:302-358 | whenever the peeked frame length and the full header read both succeed, the body offset is a multiple of 8 and offset plus body length is the peeked length |
| HeaderProofs.PeekIsLocal | crates/oxibus-core/src/header.rs:302-310 | the first 16 bytes alone decide the frame length |
| HeaderProofs.CutFrameHoldsItsBody | crates/oxibus-core/src/message.rs:104-112 | a buffer cut at the peeked length holds exactly header and body, so the body slice cannot be out of range |
| HeaderProofs.HeaderRoundTrip | crates/oxibus-core/src/header.rs:245-358 | a written header is read back unchanged, whatever follows it |
| HeaderProofs.FieldTypeFacts | crates/oxibus-core/src/header.rs:70-109 | turning a field into its wire value and back gives the field, for every kind of field |
| HeaderProofs.ReadFieldsAreWellFormed | crates/oxibus-core/src/header.rs:312-358 | every field of a header read from arbitrary bytes can be written again |
| HeaderForm.ValidateExactly | crates/oxibus-core/src/header.rs:207-243 | a header is valid if and only if a method call has a PATH and a MEMBER, a signal a PATH, an INTERFACE and a MEMBER, an error an ERROR_NAME and a REPLY_SERIAL, and a reply a REPLY_SERIAL; otherwise the first one missing is named |
| HeaderForm.FieldReadExactly | crates/oxibus-core/src/header.rs:82-117 | which field a pair of code and value stands for, for every code and value: codes 1 to 9 with a value of their type, a path also for text; other codes are skipped, other values refused |
| HeaderForm.PrefixExactly | crates/oxibus-core/src/header.rs:269-300 | the first sixteen bytes are read as what they say, byte by byte, or refused for the first thing wrong: too few bytes, byte order mark, message type, version |
| HeaderForm.PeekExactly | crates/oxibus-core/src/header.rs:302-310 | the frame length is known from sixteen bytes on: the padded field array and the body |
| HeaderForm.HeaderReadExactly | crates/oxibus-core/src/header.rs:312-358 | a header is read, up to some offset, if and only if the buffer opens with its prefix and a legal array of pairs that carry its fields, padded to that offset |
| HeaderForm.HeaderWritten | crates/oxibus-core/src/header.rs:245-267 | every byte of a written header: prefix, each field as a struct of its code and a variant, and zeros to a multiple of eight |
| Message.Serialize | crates/oxibus-core/src/message.rs:78-102 | body, recomputed SIGNATURE and UNIX_FDS, validation, header and body concatenated |
| Message.Deserialize | crates/oxibus-core/src/message.rs:104-120 | header, body by its signature, and the descriptor count check |
| MessageForm.ReceiveExactly | crates/oxibus-core/src/message.rs:104-120 | a message is received from a buffer and some descriptors if and only if the buffer opens with its header, legal values of the declared signature stand at the start of its body, and no fewer descriptors came than it declares |
| MessageForm.ReceiveErrors | crates/oxibus-core/src/message.rs:104-120 | behind a good header, a body beyond the buffer and missing descriptors are refused as such |
| MessageProofs.BodyIsInPlace | crates/oxibus-core/src/message.rs:78-102 | the body marshalled in a buffer of its own is, byte for byte, the body marshalled in place behind the header |
| MessageProofs.SentFieldsFacts | crates/oxibus-core/src/message.rs:78-95 | the sent fields are the old ones without SIGNATURE and UNIX_FDS, in order, and those two say the body's signature and the number of descriptors |
| MessageProofs.SentFieldsOrder | crates/oxibus-core/src/message.rs:78-95 | the kept fields come first, then the signature of a body that is not empty, then the number of descriptors if there are any |
| MessageProofs.MessageRoundTrip | crates/oxibus-core/src/message.rs:78-120 | parsing a serialised message gives the message back with its computed fields filled in, and the announced frame length is its length |
| MessageProofs.ReceivedKeeps | crates/oxibus-core/src/message.rs:78-120 | type, flags, serial, byte order, body, descriptors and all other fields, in order, survive |
| MessageProofs.Stable | crates/oxibus-core/src/message.rs:78-102 | serialising what was received gives byte-identical output |
| MessageProofs.SenderIsAssigned | crates/oxibus-core/src/header.rs:202-205 | however many SENDER fields there were, one remains, with the assigned name, and no other field moves |
| MessageProofs.SenderIsLast | crates/oxibus-core/src/header.rs:202-205 | the assigned sender is the last field |
| MessageProofs.Relay | crates/oxibus-daemon/src/dispatch.rs:15-17 | a message decoded from arbitrary bytes, given its sender and encoded again arrives with the same type, flags, serial, byte order, signature, body, descriptors and other fields, in order, and exactly one SENDER, the assigned one; UNIX_FDS is the number of descriptors |
| MessageProofs.ReceivedSignature | crates/oxibus-core/src/message.rs:104-120 | the signature a received message declares is that of its body |
| MessageSuccess.FieldWrites | crates/oxibus-core/src/header.rs:245-267 | a header field takes exactly its computed size behind the padding, and is written if and only if it holds no NUL |
| MessageSuccess.HeaderExactly | crates/oxibus-core/src/header.rs:245-267 | a header is written if and only if no field holds a NUL and the field array, padding included, takes at most 64 MiB |
| MessageSuccess.SentValidity | crates/oxibus-core/src/header.rs:207-243 | the recomputed SIGNATURE and UNIX_FDS make no difference to validation |
| MessageSuccess.ToBytesSucceedsExactly | crates/oxibus-core/src/message.rs:78-102 | a message is serialised if and only if its body can be written, its signature is within the limits, the header has the fields its type demands, listed by type, no field holds a NUL and the field array, padding included, takes at most 64 MiB |
| MessageSuccess.IncompleteIsNamed | crates/oxibus-core/src/message.rs:78-102 | a message that lacks a field its type demands is refused for the first one missing |
| MessageSuccess.RelaySucceedsExactly | crates/oxibus-daemon/src/dispatch.rs:15-17 | a message received from arbitrary bytes can be relayed if and only if it is valid for its type, holds no NUL outside the SENDER fields it came with, and its field array still fits once the new SENDER is in it |
| MessageSuccess.ReceivedButInvalid | crates/oxibus-core/src/message.rs:104-120 | a method call without any field is received, and cannot be relayed |
| MessageSuccess.ReceivedButFull | crates/oxibus-daemon/src/dispatch.rs:15-17 | a valid reply free of NULs whose field array is exactly at the limit is received, and no SENDER fits in any more |
| MessageSuccess.FullName | crates/oxibus-core/src/marshal.rs:129-143 | such a reply exists |
| Stream.Transport.SetMaxMessageSize | crates/oxibus-transport/src/stream.rs:84-86 | changes the limit and nothing else |
| Stream.Transport.FillMore | crates/oxibus-transport/src/stream.rs:102-123 | one receive: bytes go to the buffer, descriptors to the queue; no bytes means the peer is gone |
| Stream.Transport.ReadMessage | crates/oxibus-transport/src/stream.rs:167-202 | fills until the frame length is known and then until the frame is there, checks the limit before buffering the body, cuts the frame and its declared descriptors off the front |
| StreamProofs.NextIsReceivedExactly | crates/oxibus-transport/src/stream.rs:167-202 | the next message of a stream is returned if and only if its frame is within the limit; otherwise its length is the error |
| StreamProofs.RefusedEarly | crates/oxibus-transport/src/stream.rs:167-183 | sixteen bytes are enough to refuse a frame above the limit; its body is not waited for |
| StreamProofs.ReceivedDeclares | crates/oxibus-transport/src/stream.rs:187-202 | whatever is received comes with exactly the descriptors its header declares |
| StreamProofs.ReceiveOutcome | crates/oxibus-transport/src/stream.rs:102-202 | what becomes of arbitrary bytes, however they arrive: a closed peer, an impossible frame, one above the limit, or what the first frame parses to, with nothing behind it touched |
| Stream.Writer.WriteAllWithFds | crates/oxibus-transport/src/stream.rs:23-42 | whatever part the socket accepts each time, all bytes go out in order, and all descriptors ride on the first segment |
| Stream.Writer.WriteMessage | crates/oxibus-transport/src/stream.rs:55-60 | one message is one complete write, or an error and nothing sent |
| StreamProofs.FramingIsIndependentOfChunking | crates/oxibus-transport/src/stream.rs:167-202 | for any messages and any cut of the stream in which descriptors come no later than the last byte of their message, repeated reading returns exactly those messages, each with its own descriptors, and leaves the rest of both streams untouched |
| StreamProofs.WritesAreTimely | crates/oxibus-transport/src/stream.rs:23-42 | the writer always delivers descriptors in time |
| StreamProofs.RecutIsTimely | crates/oxibus-transport/src/stream.rs:23-42 | however the written segments are joined or split on the way, as long as descriptors arrive no later than the byte they ride on, they arrive with the last byte of their message |
| StreamProofs.AsSentIsRecut | crates/oxibus-transport/src/stream.rs:23-42 | receiving the segments as they were sent is one such way |
| StreamProofs.WriterToReader | crates/oxibus-transport/src/stream.rs:23-202 | end to end: messages written one at a time, each in arbitrarily many segments, and received in pieces cut anywhere, arrive as sent, each with its own descriptors and nothing left over |
| Registry.Registry.GetNameOwner | crates/oxibus-daemon/src/registry.rs:158-173 | the head of the queue for a well-known name, the connection itself for a unique name |
| Registry.Registry.NamesHeldBy | crates/oxibus-daemon/src/registry.rs:175-182 | the number of names a connection owns or waits for |
| Registry.Registry.RequestName | crates/oxibus-daemon/src/registry.rs:193-263 | the new table, the reply code and the reported change of one request |
| Registry.Registry.ReleaseNameInternal | crates/oxibus-daemon/src/registry.rs:287-313 | removes one connection from one queue, drops an empty queue, reports a change exactly if the owner left |
| Registry.Registry.Others | crates/oxibus-daemon/src/registry.rs:193-313 | any steps of other connections between two acquisitions of the lock |
| Registry.Registry.ReleaseName | crates/oxibus-daemon/src/registry.rs:265-285 | a release looks at the table three times with other connections acting in between; its reply, effect and reported change |
| Registry.Registry.Snapshot | crates/oxibus-daemon/src/registry.rs:126-127 | the names of the table, in any order |
| Registry.Registry.RemoveConnection | crates/oxibus-daemon/src/registry.rs:123-139 | forgets a connection by one release per name of a snapshot, with any steps of others before the snapshot and before each release; reports the changes of its own releases and then its own end |
| Registry.DepartAlone | crates/oxibus-daemon/src/registry.rs:123-139 | left alone, this is one release per name and reports the changes of these |
| RegistryProofs.RemovalIsComplete | crates/oxibus-daemon/src/registry.rs:123-139 | after it the connection is in no queue, whatever others did in between |
| RegistryProofs.DepartIsRun | crates/oxibus-daemon/src/registry.rs:123-139 | an interleaved departure is a run of steps, so every theorem about runs holds of it |
| RegistryProofs.ReachableTablesAreOk | crates/oxibus-daemon/src/registry.rs:193-313 | over every run every stored queue is non-empty, free of duplicates, and nobody behind the owner asked not to be queued |
| RegistryProofs.WaitersNeverMoveBack | crates/oxibus-daemon/src/registry.rs:193-313 | no step of another connection removes a waiter or increases its position |
| RegistryProofs.WaitersKeepTheirOrder | crates/oxibus-daemon/src/registry.rs:193-313 | two connections that wait keep their order as long as both stay, also when one becomes the owner; only by its own request, and by becoming the owner, can the later one overtake |
| RegistryProofs.StepEvents | crates/oxibus-daemon/src/registry.rs:193-313 | a step reports a change exactly when ownership changes, naming the owner before and after |
| RegistryProofs.EventsDetermineOwnership | crates/oxibus-daemon/src/registry.rs:123-313 | over every run, replaying the reported changes gives exactly the owners of the table, and each change names the owner just before it and a different one after |
| RegistryProofs.OwnReleaseStep | crates/oxibus-daemon/src/registry.rs:287-313 | a release step touches only its own connection's entry and reports the successor |
| RegistryProofs.OthersBringNobodyIn | crates/oxibus-daemon/src/registry.rs:193-313 | no step of another connection puts a connection into a queue |
| RegistryProofs.DepartureIsComplete | crates/oxibus-daemon/src/registry.rs:123-139 | once every name of the snapshot has been released, with any steps of other connections in between, the departed connection is in no queue |
| RegistryProofs.SnapshotCovers | crates/oxibus-daemon/src/registry.rs:126-131 | the snapshot of all names covers every queue the connection is in |
| RegistryReplies.ReplyMeans | crates/oxibus-daemon/src/registry.rs:193-263 | each reply code holds exactly in the situation it names: newly owner, already owner, refused with nothing changed, or waiting behind an unchanged owner |
| RegistryReplies.EvictedExactly | crates/oxibus-daemon/src/registry.rs:207-233 | a connection loses its place to another one if and only if it owned the name, asked not to be queued and was replaced; a replaced owner that may be queued goes to the very back |
| RegistryHistory.EntriesRecordTheirFlags | crates/oxibus-daemon/src/registry.rs:207-255 | over every run, every entry of a queue records bits 1 and 4 of the flags of the request by which its connection came into the queue or became the owner |
| RegistryHistory.ReplacedExactly | crates/oxibus-daemon/src/registry.rs:207-233 | after every run, a request replaces the owner if and only if it has bit 2 and the request by which the owner stands had bit 1; the replaced owner is queued again if and only if that request did not have bit 4 |
| RegistryReplies.SuccessorIsFirstInLine | crates/oxibus-daemon/src/registry.rs:287-313 | when the owner releases a name, the first in line owns it, and that is the change reported |
| RegistryReplies.TwoContenders | crates/oxibus-daemon/src/registry.rs:193-263 | two connections after one free name: who owns it and who is still queued, as a function of bits 1, 2 and 4 of their flags |
| RegistryReplies.ReleaseUndoesRequest | crates/oxibus-daemon/src/registry.rs:193-313 | releasing takes back a newcomer's request, except that an owner it replaced has gone to the back, or away |
| RegistryReplies.ReleaseIsFinal | crates/oxibus-daemon/src/registry.rs:265-285 | although a release looks at the table three times, with other connections acting in between, its caller is in no queue for the name afterwards, and others cannot bring it back |
| RegistryReplies.ReleaseAlone | crates/oxibus-daemon/src/registry.rs:265-285 | left alone, a release is one step of the table and its reply says whether the name and the caller's place existed |
| RegistryProofs.HeldAfter | crates/oxibus-daemon/src/registry.rs:207-248 | only a connection's own request adds to the names it holds, even when others displace and requeue it |
| RegistryProofs.QuotaHolds | crates/oxibus-daemon/src/driver.rs:205-214 | over every run in which requests pass the limit check, in any interleaving of checks and requests of different connections, no connection owns or waits for more names than the limit |
| RegistryProofs.EmptyTableIsWithinQuota | crates/oxibus-daemon/src/driver.rs:205-211 | every run starts within the limit |
| Driver.UnwrapVariant | crates/oxibus-core/src/types.rs:313-318 | an argument is never left wrapped in a variant |
| Driver.RequestedExactly | crates/oxibus-daemon/src/driver.rs:50-214 | the request that is made is (s, n) if and only if the first argument is the string, path or signature s and the second the 32-bit number n, each in any number of variants, s does not begin with a colon, is a bus name and may be owned; who may not own it is denied access, and every other list of arguments is invalid |
| Driver.Driver.Admit | crates/oxibus-daemon/src/driver.rs:157-203 | definition: the checks before the limit, in the driver's order |
| Driver.Driver.HandleRequestName | crates/oxibus-daemon/src/driver.rs:152-215 | by what the arguments are: denied or over the limit with nothing changed, or the request for exactly that name with exactly those flags, answered by a number that says who owned the name before and who owns it after; the limit check and the request lock separately, with other handlers acting in between; nobody passes the limit, and no unique name enters the table |
| Driver.Driver.ActAll | crates/oxibus-daemon/src/driver.rs:152-228 | any checks, requests and releases of other handlers, one acquisition of the lock each |
| Driver.Driver.HandleReleaseName | crates/oxibus-daemon/src/driver.rs:217-228 | a release by name, interleaved with other connections, answered with the numeric code 1, 2 or 3; no unique name enters the table |
| Driver.CheckThenCommit | crates/oxibus-daemon/src/driver.rs:205-214 | the driver's sequence is one run of the interleaved model: nothing at the limit, one request below it |
| SaslServer.ServerAuth.FeedLine | crates/oxibus-auth/src/server.rs:94-101 | definition: one line drives the state machine by its current state |
| SaslServer.ServerAuth.HandleWaitingForAuth | crates/oxibus-auth/src/server.rs:103-146 | definition: AUTH with or without initial data, ERROR, anything else |
| SaslServer.ServerAuth.HandleWaitingForData | crates/oxibus-auth/src/server.rs:148-165 | definition: DATA, CANCEL, ERROR, and the commands that come too early |
| SaslServer.ServerAuth.HandleWaitingForBegin | crates/oxibus-auth/src/server.rs:167-181 | definition: BEGIN, NEGOTIATE_UNIX_FD, CANCEL, ERROR |
| SaslServer.ServerAuth.RejectedAction | crates/oxibus-auth/src/server.rs:73-83 | definition: counts the failure, starts over, hangs up at the sixth |
| SaslServer.ServerAuth.DispatchMechanismData | crates/oxibus-auth/src/server.rs:183-222 | definition: EXTERNAL, ANONYMOUS and the two steps of the cookie mechanism |
| SaslServer.ServerAuth.CookieFirstResponse | crates/oxibus-auth/src/server.rs:224-263 | definition: announces key id and challenge to a client of the server's own user |
| SaslServer.ServerAuth.CookieSecondResponse | crates/oxibus-auth/src/server.rs:265-300 | definition: accepts exactly the hash over challenge, client challenge and secret |
| SaslServerProofs.RunFacts | crates/oxibus-auth/src/server.rs:73-300 | over every sequence of lines: waiting for BEGIN means an OK that no rejection followed; the failure counter counts rejections |
| SaslServerProofs.BeginOnlyAfterOk | crates/oxibus-auth/src/server.rs:167-181 | BEGIN succeeds if and only if it follows an OK with no rejection since, and then for the peer's uid, or for none only if ANONYMOUS is both listed and enabled |
| SaslServerProofs.SixthRejectionDisconnects | crates/oxibus-auth/src/server.rs:73-83 | the server hangs up exactly at a rejection that is the sixth or a later one |
| SaslServerProofs.AgreementIsKept | crates/oxibus-auth/src/server.rs:167-181 | descriptor passing is on exactly if it was ever agreed, even after a CANCEL |
| SaslServerProofs.CookieIsOpenChallenge | crates/oxibus-auth/src/server.rs:214-263 | the key id and challenge the server keeps are those of the challenge that is still open |
| SaslServerProofs.ProposedIsState | crates/oxibus-auth/src/server.rs:103-165 | the mechanism under negotiation is the one an observer saw proposed and neither accepted nor rejected |
| SaslServerProofs.OkExactly | crates/oxibus-auth/src/server.rs:94-300 | after every history and for every line, OK is sent if and only if none is in force and the line delivers, to a listed and enabled mechanism, what earns it: a claim to the peer's own uid or none, nothing for an enabled ANONYMOUS, the right hash over the open challenge; and who is let in |
| SaslServerProofs.ChallengeExactly | crates/oxibus-auth/src/server.rs:224-263 | after every history, a challenge is issued if and only if the cookie mechanism is given a good claim by a client of the server's own user, a key can be announced and no challenge is open |
| SaslServerProofs.RejectionExactly | crates/oxibus-auth/src/server.rs:103-181 | after every history, a line is rejected if and only if it cancels, reports an error, or delivers what earns neither OK nor a challenge |
| SaslServerProofs.AgreeExactly | crates/oxibus-auth/src/server.rs:167-181 | after every history, descriptor passing is agreed to if and only if it is asked for while an OK is in force |
| SaslServerProofs.CookieOkNeedsTheHash | crates/oxibus-auth/src/server.rs:214-300 | after every history, the cookie mechanism sends OK if and only if a challenge is open and the line carries the hash over the challenge of this attempt and the secret of the announced key; the client is then the peer |
| SaslServerProofs.NoCookieOkWithoutChallenge | crates/oxibus-auth/src/server.rs:103-300 | every OK comes from a listed and enabled mechanism, and never from the cookie mechanism without an open challenge |
| SaslForm.OtherReplies | crates/oxibus-auth/src/server.rs:90-181 | after every history, initial data is asked for exactly when an AUTH line names a mechanism that may be started and carries none; a reply that is no OK, rejection, challenge, prompt, agreement or begin is a complaint that says what was expected and changes nothing |
| SaslForm.CommandExactly | crates/oxibus-auth/src/server.rs:303-308 | a line is its command, any white space, and the rest |
| SaslForm.ServerLines | crates/oxibus-auth/src/server.rs:73-92 | the text of every line a server sends |
| SaslForm.NamesAreListed | crates/oxibus-auth/src/mechanism.rs:29-31 | a rejection lists the mechanisms on offer, in order, between spaces |
| SaslForm.CookieTexts | crates/oxibus-auth/src/server.rs:224-300 | a response is the hash of the server's challenge, the client's and the secret, between colons; a challenge announces the context, the key id in decimal and the server's challenge, between spaces |
| SaslAgreement.FirstOkExactly | crates/oxibus-auth/src/server.rs:103-212 | an AUTH line is answered by OK at once if and only if its mechanism is listed and it is an enabled ANONYMOUS, or EXTERNAL with no claim or the peer's own uid |
| SaslClient.ClientAuth.Start | crates/oxibus-auth/src/client.rs:47-49 | definition: the first mechanism is proposed |
| SaslForm.Proposals | crates/oxibus-auth/src/client.rs:51-71 | the line of every proposal, as text: EXTERNAL and DBUS_COOKIE_SHA1 with the client's uid in decimal, ANONYMOUS with a trace, in hexadecimal |
| SaslForm.ExternalExactly | crates/oxibus-auth/src/server.rs:196-208 | a proposal of EXTERNAL ends authenticated in one round, with that uid, if and only if the server lists it and both ends have the same uid; otherwise the next mechanism is proposed, if there is one |
| SaslForm.AnonymousExactly | crates/oxibus-auth/src/server.rs:210-212 | a proposal of ANONYMOUS ends authenticated in one round, as nobody in particular, if and only if the server lists and enables it |
| SaslForm.ExternalHandshake | crates/oxibus-client/src/connection.rs:280-315 | with EXTERNAL first and the same uid at both ends, the handshake takes one round and the server begins with that uid and with descriptor passing as the client wants it |
| SaslClient.ClientAuth.BeginMechanismAt | crates/oxibus-auth/src/client.rs:51-71 | definition: AUTH line with the mechanism's initial data |
| SaslClient.ClientAuth.TryNextMechanism | crates/oxibus-auth/src/client.rs:77-83 | definition: the next mechanism, if there is one |
| SaslClient.ClientAuth.FeedLine | crates/oxibus-auth/src/client.rs:85-100 | definition: the client's reaction to a server line |
| SaslClient.ClientAuth.HandleData | crates/oxibus-auth/src/client.rs:102-129 | definition: a challenge is answered once, and only by the cookie mechanism |
| SaslForm.ClientReaction | crates/oxibus-auth/src/client.rs:85-100 | what the client makes of a line, for every command word |
| SaslForm.DataReaction | crates/oxibus-auth/src/client.rs:102-171 | DATA draws the proposal again from EXTERNAL and ANONYMOUS, and one answer from the cookie mechanism, to a well-formed challenge for a key the client knows: its own challenge and the hash; everything else is an error and changes nothing |
| SaslClient.ClientAuth.RespondToCookieChallenge | crates/oxibus-auth/src/client.rs:131-171 | definition: the response to a parsed challenge whose key is known |
| SaslClient.ClientAuth.FinishLinesOf | crates/oxibus-auth/src/client.rs:173-183 | definition: the lines after OK, with descriptor negotiation if wanted |
| SaslForm.FinishTexts | crates/oxibus-auth/src/client.rs:173-183 | the closing lines, as text: negotiation before BEGIN, and only if wanted |
| SaslAgreement.ConverseOutcome | crates/oxibus-client/src/connection.rs:280-315 | every round brings the end nearer: two rounds per mechanism still to be tried |
| SaslAgreement.HandshakeAgrees | crates/oxibus-client/src/connection.rs:280-315 | with a non-empty mechanism list the two machines, run in lock step over their printed lines, end within two rounds per mechanism whatever the world answers; if the client believes it is authenticated the server waits for BEGIN, and the finishing lines make it begin with descriptor passing exactly as the client wants |
| SaslAgreement.Handshake | crates/oxibus-daemon/src/connection_handler.rs:109-140 | the two loops against each other follow that conversation |
| SaslAgreement.CookieExchangeSucceeds | crates/oxibus-auth/src/server.rs:214-300 | when both sides hold the same secret for the announced key, the cookie exchange succeeds in two rounds for the peer's uid |
| Descriptors.Extractor.Walk | crates/oxibus-client/src/connection.rs:379-406 | each descriptor is pushed and replaced by its index, in traversal order |
| Descriptors.ExtractThenRestore | crates/oxibus-client/src/connection.rs:378-410 | substituting the list back restores the original value |
| Descriptors.ExtractNumbers | crates/oxibus-client/src/connection.rs:378-410 | the new indices are consecutive in traversal order from the initial length on, so each is used once |
| Descriptors.SlotsInOrder | crates/oxibus-client/src/connection.rs:378-410 | the order of traversal: one value after the other, a key before its value |
| Descriptors.SameBits | crates/oxibus-client/src/connection.rs:379-386 | a slot and its descriptor are the same 32 bits |
| Descriptors.ExtractKeepsType | crates/oxibus-client/src/connection.rs:378-410 | types and well-formedness are untouched |
| Descriptors.ExtractFds | crates/oxibus-client/src/connection.rs:378-410 | all of this for the values of a reply, starting from an empty list |
| MatchRules.TokenizeText | crates/oxibus-daemon/src/match_rules.rs:75-121 | the index loop over keys and quoted values, with its four errors |
| MatchRules.ReadQuoted | crates/oxibus-daemon/src/match_rules.rs:94-115 | the inner loop: escaped quotes, the closing quote, the end of the text |
| MatchRules.ParseRuleText | crates/oxibus-daemon/src/match_rules.rs:22-73 | fields set pair by pair, the last one winning, arguments kept in order |
| MatchRuleProofs.TokensExactly | crates/oxibus-daemon/src/match_rules.rs:75-121 | an ASCII text is read as a list of pairs if and only if it is those pairs printed, each followed by a comma or not |
| MatchRuleProofs.TokenizePrinted | crates/oxibus-daemon/src/match_rules.rs:75-121 | printed pairs are read back in order whatever quotes, commas, backslashes or equals signs their values hold; a non-ASCII value comes back byte by byte |
| MatchRuleProofs.RuleRoundTripExactly | crates/oxibus-daemon/src/match_rules.rs:22-121 | printing a rule and reading it restores every field and the order of both argument lists if and only if all values are ASCII and all indices at most 63 |
| MatchRuleProofs.PrintedRuleIsRead | crates/oxibus-daemon/src/match_rules.rs:22-121 | what comes back for any rule with indices in range, ASCII or not |
| MatchRuleProofs.ReadRulesCanBePrinted | crates/oxibus-daemon/src/match_rules.rs:22-121 | every rule read from ASCII text, in whatever order and with whatever repetitions, can be written down and read again |
| MatchRuleForm.KeysExactly | crates/oxibus-daemon/src/match_rules.rs:28-72 | what each of the nine fixed keys sets, by its name; every other key begins with arg or is refused as unknown |
| MatchRuleForm.ArgsExactly | crates/oxibus-daemon/src/match_rules.rs:47-70 | a key is that of an argument if and only if it is the word arg, once or more, and a number, and that of an argument path if the word path follows, once or more; an index above 63 and a key without a number are refused |
| MatchRuleForm.TypesExactly | crates/oxibus-daemon/src/match_rules.rs:30-38 | the four type names, and that any other is refused |
| MatchRuleForm.TypeTexts | crates/oxibus-daemon/src/match_rules.rs:30-38 | the names the model prints for the four types are those that are read |
| MatchRuleForm.PairErrors | crates/oxibus-daemon/src/match_rules.rs:75-92 | a pair is refused exactly if it has no equals sign, if no quote follows it, or if its value is refused |
| MatchRuleForm.ValueErrors | crates/oxibus-daemon/src/match_rules.rs:94-115 | a value is refused exactly if it is never closed, or an escape in it is not finished |
| MatchRuleForm.BytesAreCharacters | crates/oxibus-daemon/src/match_rules.rs:111-113 | a byte of a value becomes the character with that code, in UTF-8 |
| Addresses.EscapeText | crates/oxibus-core/src/addr.rs:116-127 | the escaped text, which unescapes to the original |
| Addresses.UnescapeText | crates/oxibus-core/src/addr.rs:88-105 | percent escapes decoded, everything else copied |
| Addresses.ParseKvText | crates/oxibus-core/src/addr.rs:74-86 | pairs split at commas, empty ones skipped, later keys winning |
| Addresses.UnescapeEscape | crates/oxibus-core/src/addr.rs:88-127 | unescaping inverts escaping for arbitrary bytes |
| Addresses.EscapeIsInert | crates/oxibus-core/src/addr.rs:116-127 | escaped text contains no separator |
| Addresses.AddressRoundTrip | crates/oxibus-core/src/addr.rs:25-71 | a printed address is parsed back as itself |
| Addresses.AddressListRoundTrip | crates/oxibus-core/src/addr.rs:18-71 | a semicolon-joined list is parsed back as the same list, whatever bytes the paths hold, if and only if no TCP host in it holds a comma or a semicolon |
| Addresses.TcpRoundTripExactly | crates/oxibus-core/src/addr.rs:39-71 | a TCP address, whose host is printed as it is, survives if and only if the host has no comma |
| AddressForm.AddressTexts | crates/oxibus-core/src/addr.rs:63-71 | the text of every kind of address |
| AddressForm.AddressExactly | crates/oxibus-core/src/addr.rs:25-61 | what an address is read as, by its transport and its pairs: a path before an abstract name before a directory; a port that must be there and fit 16 bits, and the local host if none is named |
| AddressForm.PairsGrow | crates/oxibus-core/src/addr.rs:74-86 | what one more pair adds to the pairs before it: nothing if empty, an error without an equals sign, otherwise its key, whatever value that had |
| AddressForm.ListGrows | crates/oxibus-core/src/addr.rs:18-23 | what one more piece adds to a list: nothing if empty, otherwise one address, or its error |
| AddressForm.EscapeExactly | crates/oxibus-core/src/addr.rs:116-127 | letters, digits and five marks stand for themselves, any other byte is a percent sign and two digits of lower case |
| AddressForm.EscapeRead | crates/oxibus-core/src/addr.rs:88-114 | a percent sign in front of two digits of either case is one byte |
| AddressForm.PlainRead | crates/oxibus-core/src/addr.rs:88-114 | any other byte, and a percent sign that is not in front of two digits, is itself |
| Text.HexRoundTrip | crates/oxibus-auth/src/server.rs:310-313 | hexadecimal payloads decode to what was encoded |
| TextForm.HexDecodeExactly | crates/oxibus-auth/src/server.rs:310-313 | a text decodes to some bytes if and only if it is two listed digits of either case for each of them, the high one first |
| TextForm.UnsignedExactly | crates/oxibus-auth/src/server.rs:196-208 | a text is a number below a limit if and only if it is digits, perhaps after a plus sign, whose value is below it |
| TextForm.DecimalExactly | crates/oxibus-auth/src/client.rs:60-61 | numbers are written in decimal without leading zeros |
| TextForm.TrimStartExactly | crates/oxibus-auth/src/server.rs:303-308 | trimming takes away characters with the Unicode property White_Space, listed, and all of them |
| TextForm.TrimExactly | crates/oxibus-auth/src/client.rs:85-100 | trimming takes them away at both ends |

## Left out

- WireReread.RoundTrip: excludes types with an empty struct inside, because the source's array loop does not terminate on arrays of empty structs; the parser never produces such a type.
- WireReread.WireRelation: assumes no string inside holds a NUL; WireReread.ReadThenWrite covers the values that do.
- WireForm.ReadExactly: excludes types with an empty struct inside, as WireReread.RoundTrip does.
- WireForm.WriteExactly: is about legal values without NULs; of others the writer refuses what WireForm.WriteRefusals lists and writes the rest unchecked.
- MessageProofs.MessageRoundTrip: assumes a body below 2^32 bytes and fewer than 2^32 descriptors, because the counts are truncated to 32 bits in the header.
- MessageProofs.Relay: assumes that serialising the relayed message succeeds; MessageSuccess.RelaySucceedsExactly says exactly when it does.
- Signature.Parser.ParseOne: does not state cursor and counters after an error, because the parser is discarded then.
- Marshal.Marshaler.WriteValue: does not state the buffer after an error, because the writer is discarded then.
- Unmarshal.Unmarshaler.ReadValue: does not state where the cursor stands after an error, because the reader is discarded then.
- Stream.Transport.ReadMessage: does not state the buffers after an error, because the connection is closed then.
- StreamProofs.WriterToReader: messages are written one at a time; the source has no lock around the loop of partial writes, so concurrent writers are not covered.
- SaslAgreement.CookieExchangeSucceeds: assumes ASCII challenges and a hash whose output is non-empty ASCII, as hexadecimal digests are.
- Descriptors.ExtractThenRestore: assumes at most 2^32 descriptors, because indices are truncated to 32 bits.
- Overflow of the machine's address-sized integers is not modelled; buffer sizes are unbounded.
- Messages, headers, values and rules are values; the in-place edits of a cloned header, and of reply values while descriptors are extracted, are modelled by returning the new value.
- Sockets, peer credentials, scheduling and activation: the stream is an arbitrary sequence of (bytes, descriptors) arrivals.
- Reading SASL lines off the socket: its length check depends on how bytes arrive.
- SHA-1 is an arbitrary hash, the keyring a map, random challenges and the current user parameters of each line.
- Lossy conversion of malformed UTF-8 in addresses is a parameter that leaves valid text alone.
- Change events of unique names: a connection is resolvable before it says Hello.
- The grammar of bus names and the policy and AppArmor verdicts are parameters of the driver.
- Serial numbers, message builders, match filtering, statistics, identities, audit, activation, configuration, the object server, proxies, the tools and the C shim.
