# Verified models of the ESP8266 SDK application code

Dafny models of the parts of this SDK tree that compute something: the JSON library, the MQTT
client, the SDIO slave driver, the flash parameter store, the WebSocket receive buffer, SHA-256,
light fading and the UART rings. Each part has a description of what it is meant to do (functions
on sequences and small state machines), the code in imperative form (classes and methods with the
source's loops, fields and branches) proved against that description, and the properties the code
is for, proved of the description for all inputs and all runs.

`dafny verify dfyconfig.toml` checks everything.

| files | what they model |
|---|---|
| `JsonText`, `JsonGrammar`, `JsonRoundTrip`, `JsonUnescape`, `Utf8` | the trees of `cJSON.c`, the texts of its printers, the parser as functions, and the laws between them |
| `JsonLiterals`, `JsonSyntax` | the grammar of the texts in the bytes themselves, and that the parser accepts exactly that |
| `JsonParser`, `JsonPrinter`, `JsonPieces`, `JsonPrintBuffer`, `PowerOfTwo`, `JsonMinify`, `CStrings` | the parser, the two printers and the minifier as loops over buffers |
| `JsonComments`, `JsonMinifyTwice` | what the minifier takes out and leaves, and what a second run does |
| `RingView`, `RingBuf`, `Framing`, `Proto`, `MqttQueue` | the MQTT outbound queue: byte ring, stuffed frames, eviction |
| `MqttPacket`, `MqttMsg`, `MqttReceive`, `MqttClient` | packet builders and getters, the receive loop, the client |
| `MqttIds`, `MqttAnswers` | the ids of messages, and the answers to packets byte for byte |
| `SdioProtocol`, `SdioSlave` | the SDIO buffers as a protocol between loader and interrupt, and as linked lists |
| `FlashStore`, `ParamFlash` | the two-slot stores of `iotgo_flash.c` and `config.c` |
| `SproStream`, `SproFrames`, `Spro` | WebSocket stream reassembly, and what passes for a frame |
| `Sha256`, `Sha256Context`, `Sha256Stream` | FIPS 180-2, the unrolled compression, the streaming context |
| `Sha256Constants`, `Sha256Example` | where the constants come from, and the standard's example worked through |
| `LightFade`, `LightRate`, `Light` | the fade filter, how fast it goes, its timer and event ring |
| `UartRings` | the block-copying rings of the UART driver |

## How the code is represented

- A C string is the sequence of its bytes before the terminator; reading at or behind the terminator
  gives NUL. JSON numbers are reals, since rounding is not at stake for integers.
- 16- and 32-bit arithmetic is written out with remainders, or done on bit vectors, wherever it can
  wrap; where the model uses sums and divisions for shifts and masks, a bit-vector lemma says they
  agree.
- What the outside decides is a parameter: how many read-done interrupts arrive in each window of the
  SDIO loader, where a power failure cuts a flash operation and what it leaves behind, how TCP chops
  up a stream and when a timer expires, the uninitialised begin flag of the frame decoder. Theorems
  quantify over all of it.
- Callbacks and socket writes are recorded as sequences (`log`, `delivered`, `sent`).

## What the code does not keep

Where the code falls short of what it is for, the model follows the code. Each item names the lemma
that says, for all inputs, exactly when it happens, and those that give an input or show what follows.

- `sdio_load_data` can queue an empty buffer for which no transfer is started; nothing is ever sent
  after that (`SdioProtocol.StalledForGood`). A call is safe from it whatever interrupts come if and
  only if no buffer is free, or it offers at least one byte and no more than the free buffers hold
  (`NeverStallsIff`; the interleavings that stall it in `OverfullStalls` and `EmptyCallStalls`). With no
  interrupt inside, only an empty call on an idle slave stalls it (`AtomicLiveIff`).
- The eviction loop can refuse a message that would fit an empty ring, because truncated frames take
  room (exactly when: `MqttQueue.EvictSucceedsIff`; an input: `FitsEmptyRingYetRefused`).
- A message id is read as zero from a QoS 1 or 2 PUBLISH without payload that ends where the buffer
  length ends (exactly when: `MqttPacket.IdRecovered`).
- A packet whose remaining length is above 16383 is built with a length no reader gets back (exactly
  when: `MqttPacket.LengthRead`).
- The packet loop runs for ever on a segment that comes to a PUBLISH whose total length is a multiple of
  65536 (exactly when it ends: `MqttReceive.LoopEndsIff`; the inputs: `SixtyFourKilobytesStall`,
  `ShortestStall`).
- `MQTT_Subscribe` and `MQTT_UnSubscribe` queue an empty message when the packet could not be built
  (exactly when: `MqttClient.Client.Subscribe`, `Unsubscribe`).
- A lamp with a saved duty from 1 to 20 keeps that channel dark at boot and its timer never stops
  (exactly when: `LightFade.BootEndsIff`; what is seen: `BootStaysDark`).
- How the network cuts a WebSocket stream shows in what is reported once bytes follow an error (exactly
  when: `SproStream.ChunksInvisibleIff`; an input: `StrayByte`).
- Minifying twice can remove more than minifying once, on texts that no printer produces (exactly when:
  `JsonMinifyTwice.MinifyTwiceIff`; an input: `JsonMinify.MinifyTwiceCanDiffer`).
- The parser accepts more than RFC 8259: a string that the end of the text ends, any byte but the
  terminator, quote and backslash inside a string, any other character behind a backslash as itself, a
  zero in front of other digits, a minus without digits (exactly what: `JsonSyntax.TextsExactly`,
  `JsonSyntax.NumbersExactly`, `JsonLiterals.StringsExactly`).
- A string literal that ends the text with a backslash nothing follows decodes to a string with the terminator inside (exactly
  when: `JsonUnescape.DecodedHasNoNul`).

## Model

| member | source | states |
|---|---|---|
| JsonRoundTrip.RoundTrip | sdk_v2.0.1/app/addition/cJSON.c:331-665 | every printable tree, printed in either form, parses back to the same tree with all of the text consumed, whether or not a terminator is demanded |
| JsonRoundTrip.TextInjective | sdk_v2.0.1/app/addition/cJSON.c:379-665 | two trees with the same printed text are the same tree, in either form |
| JsonRoundTrip.ParseText | sdk_v2.0.1/app/addition/cJSON.c:364-376 | a printed value standing anywhere in a longer text is parsed to itself and exactly its own bytes are consumed, provided what follows cannot continue a number |
| JsonRoundTrip.ParseItemsText | sdk_v2.0.1/app/addition/cJSON.c:413-438 | the same for the items of an array up to the closing bracket |
| JsonRoundTrip.ParseMembersText | sdk_v2.0.1/app/addition/cJSON.c:521-554 | the same for the members of an object up to the closing brace, through white space and commas |
| JsonRoundTrip.ParseQuoted | sdk_v2.0.1/app/addition/cJSON.c:197-256 | a quoted and escaped NUL-free string is unescaped to itself and exactly its literal is consumed |
| JsonRoundTrip.ParseDecimal | sdk_v2.0.1/app/addition/cJSON.c:80-110 | the decimal text of any integer is read back as that integer |
| JsonRoundTrip.SkipBlank | sdk_v2.0.1/app/addition/cJSON.c:328 | white space makes no difference to where skipping ends |
| JsonUnescape.DecodeFitsScan | sdk_v2.0.1/app/addition/cJSON.c:197-256 | for every literal the decode pass accepts, it ends at the scanned end and writes at most the number of bytes the scan pass counted, so the buffer suffices |
| JsonUnescape.DecodedHasNoNul | sdk_v2.0.1/app/addition/cJSON.c:197-256 | closed or not, an accepted literal decodes to a string without a NUL inside if and only if the scan did not step over the terminator, as it does behind a last backslash |
| JsonUnescape.UnicodeEscape | sdk_v2.0.1/app/addition/cJSON.c:224-249 | exactly which \u escapes are accepted, and that an accepted one, alone or as a surrogate pair, gives the UTF-8 encoding of its code point |
| JsonLiterals.Hex4Iff | sdk_v2.0.1/app/addition/cJSON.c:182-193 | four characters are read as a number above zero if and only if they spell it at base sixteen, in either case of letters |
| JsonLiterals.OneEscape | sdk_v2.0.1/app/addition/cJSON.c:224-249 | an escape of four digits that spell a code point is read as that code point in UTF-8 |
| JsonLiterals.OnePair | sdk_v2.0.1/app/addition/cJSON.c:229-238 | a pair of escapes that spell the surrogates of a code point is read as that code point in UTF-8 |
| JsonLiterals.RefusesNoDigit | sdk_v2.0.1/app/addition/cJSON.c:182-227 | an escape one of whose four characters is no hex digit is refused |
| JsonLiterals.StringsExactly | sdk_v2.0.1/app/addition/cJSON.c:197-256 | which literals are read, as which strings and up to where: exactly the sequences of plain bytes, single-character escapes, code point escapes and surrogate pairs, each as what it stands for, closed or ended by the text, and those a last backslash leaves dangling |
| Utf8.DecodeEncode | sdk_v2.0.1/app/addition/cJSON.c:240-247 | the byte pattern written for a scalar value decodes, by a strict reference decoder of section 3 of RFC 3629, to that value |
| Utf8.EncodeDecode | sdk_v2.0.1/app/addition/cJSON.c:240-247 | everything the strict decoder accepts is the pattern written for the decoded value |
| Utf8.MasksAreDivisions | sdk_v2.0.1/app/addition/cJSON.c:240-247 | the source's masks and shifts on the code point are the divisions and remainders the model uses |
| Utf8.PairMasksAreDivisions | sdk_v2.0.1/app/addition/cJSON.c:231-237 | the same for joining a surrogate pair |
| JsonParser.SkipSpace | sdk_v2.0.1/app/addition/cJSON.c:328 | the loop finds the first byte that is no white space |
| JsonParser.ReadNumber | sdk_v2.0.1/app/addition/cJSON.c:80-110 | the digit loops compute sign, whole part and fraction of the number grammar, with the exponent ignored as the source does, and where the number ends |
| JsonParser.WriteUtf8 | sdk_v2.0.1/app/addition/cJSON.c:240-247 | the fall-through switch that fills bytes from the back writes the UTF-8 encoding and nothing before it |
| JsonParser.ReadHex4 | sdk_v2.0.1/app/addition/cJSON.c:182-193 | the four digit steps give the value of four hex digits, and zero as soon as one is none |
| JsonParser.ReadUnicode | sdk_v2.0.1/app/addition/cJSON.c:224-249 | one \u escape: accepted, rejected and written exactly as the grammar function says, staying inside the buffer |
| JsonParser.ReadString | sdk_v2.0.1/app/addition/cJSON.c:197-256 | scan, allocate and decode together return the string of the literal or the position of the error |
| JsonParser.ReadValue | sdk_v2.0.1/app/addition/cJSON.c:364-376 | the recursive parser returns, for every input, the tree or the error position the grammar gives |
| JsonParser.ReadArray | sdk_v2.0.1/app/addition/cJSON.c:413-438 | the item loop agrees with the grammar of arrays on every input, errors included |
| JsonParser.ReadObject | sdk_v2.0.1/app/addition/cJSON.c:521-554 | the member loop agrees with the grammar of objects on every input, errors included |
| JsonParser.ParseWithOpts | sdk_v2.0.1/app/addition/cJSON.c:331-345 | the whole entry point: leading white space, the value, and the demand for a terminator |
| JsonSyntax.NumbersExactly | sdk_v2.0.1/app/addition/cJSON.c:80-110 | which numbers are read, as which values and up to where: exactly a minus, a zero, digits and a fraction in this order, each if it is there, worth the integer of all the digits over ten to the number of those behind the point |
| JsonSyntax.ValueRead | sdk_v2.0.1/app/addition/cJSON.c:331-554 | every value that stands in a text by the grammar is read, and up to its end |
| JsonSyntax.ValueFound | sdk_v2.0.1/app/addition/cJSON.c:331-554 | every value that is read stands there by the grammar, but for a string that runs out of text |
| JsonSyntax.ValuesExactly | sdk_v2.0.1/app/addition/cJSON.c:331-554 | the parser accepts exactly the grammar of section 2 of RFC 8259 with this parser's literals and numbers, and builds exactly the tree the text means |
| JsonSyntax.TextsExactly | sdk_v2.0.1/app/addition/cJSON.c:331-345 | with a terminator demanded, exactly the texts of white space, one value and white space are accepted |
| JsonText.ItemBytes | sdk_v2.0.1/app/addition/cJSON.c:450-518 | formatted, a comma and a space stand between two items |
| JsonText.MemberBytes | sdk_v2.0.1/app/addition/cJSON.c:564-665 | formatted, every member has a line of its own behind as many tabs as it is deep, with a tab behind its colon |
| JsonText.ObjectBytes | sdk_v2.0.1/app/addition/cJSON.c:564-665 | formatted, the braces of an object stand on lines of their own, the closing one behind as many tabs as the object is deep |
| JsonPrinter.NeedsEscape | sdk_v2.0.1/app/addition/cJSON.c:272-284 | when the first pass finds nothing to escape, the string is its own escaped text |
| JsonPrinter.EscapedLength | sdk_v2.0.1/app/addition/cJSON.c:286 | the counting pass gives the exact length of the escaped text |
| JsonPrinter.FillEscaped | sdk_v2.0.1/app/addition/cJSON.c:292-313 | the escape loop writes the quoted text and a terminator inside the space counted for it |
| JsonPrinter.PrintString | sdk_v2.0.1/app/addition/cJSON.c:259-315 | the string printer returns a fresh buffer holding the quoted text |
| JsonPrinter.DecimalFits | sdk_v2.0.1/app/addition/cJSON.c:142-180 | the decimal text of a 32-bit integer fits the 21 bytes reserved |
| JsonPrinter.PrintNumber | sdk_v2.0.1/app/addition/cJSON.c:142-180 | an integer is printed as its decimal text, zero in its own branch |
| JsonPrinter.PrintArray | sdk_v2.0.1/app/addition/cJSON.c:441-518 | items printed one by one, lengths summed and pieces assembled give the array's text, with every write inside the length reserved |
| JsonPrinter.PrintObject | sdk_v2.0.1/app/addition/cJSON.c:557-665 | the same for an object, with its indentation rules |
| JsonPrinter.PrintValue | sdk_v2.0.1/app/addition/cJSON.c:379-410 | the heap-assembling printer produces exactly the text of the tree |
| JsonPrinter.TextNoNul | sdk_v2.0.1/app/addition/cJSON.c:379-410 | no printed text contains a NUL, so its C length is its length |
| PowerOfTwo.Pow2gtIsLeast | sdk_v2.0.1/app/addition/cJSON.c:112 | for 1 to 2^30 the smearing trick returns the least power of two that is not below its argument |
| PowerOfTwo.FiveDoublings | sdk_v2.0.1/app/addition/cJSON.c:112 | the five shifts smear the leading bit over 32 places |
| JsonPrintBuffer.PrintBuffer.Ensure | sdk_v2.0.1/app/addition/cJSON.c:116-131 | afterwards the needed bytes fit behind the offset, and what was written is kept across a reallocation |
| JsonPrintBuffer.PrintBuffer.CatchUp | sdk_v2.0.1/app/addition/cJSON.c:133-139 | the offset moves to the end of the text last written |
| JsonPrintBuffer.PrintBuffer.PutString | sdk_v2.0.1/app/addition/cJSON.c:259-315 | the string printer in a growing buffer appends the quoted text |
| JsonPrintBuffer.PrintBuffer.PutNumber | sdk_v2.0.1/app/addition/cJSON.c:142-180 | the number printer in a growing buffer appends the decimal text |
| JsonPrintBuffer.PrintBuffer.PutArray | sdk_v2.0.1/app/addition/cJSON.c:450-475 | the array printer in a growing buffer appends the array's text |
| JsonPrintBuffer.PrintBuffer.PutObject | sdk_v2.0.1/app/addition/cJSON.c:564-614 | the object printer in a growing buffer appends the object's text |
| JsonPrintBuffer.PrintBuffer.PutValue | sdk_v2.0.1/app/addition/cJSON.c:379-396 | the growing-buffer printer appends the text of any tree and keeps everything before it |
| JsonPrintBuffer.PrintBuffered | sdk_v2.0.1/app/addition/cJSON.c:353-360 | for every positive initial size and both forms, the buffered printer leaves exactly the tree's text |
| JsonPrintBuffer.BothPrinters | sdk_v2.0.1/app/addition/cJSON.c:350-410 | the buffered and the heap-assembling printer always agree |
| JsonMinify.Minify | sdk_v2.0.1/app/addition/cJSON.c:743-758 | in place, the array ends up holding what the text keeps, terminated; the write index never passes the read index and nothing beyond the terminator changes |
| JsonMinify.CopyLiteral | sdk_v2.0.1/app/addition/cJSON.c:754 | string literals, escaped quotes included, are copied untouched |
| JsonMinify.SkipBlock | sdk_v2.0.1/app/addition/cJSON.c:753 | a block comment is skipped to its end, a text without one to the terminator |
| JsonMinify.MinifyText | sdk_v2.0.1/app/addition/cJSON.c:743-758 | minifying the print of any tree at any depth keeps exactly its unformatted text |
| JsonMinify.MinifyUndoesFormatting | sdk_v2.0.1/app/addition/cJSON.c:441-758 | minifying the formatted print gives the unformatted print, and minifying that changes nothing |
| JsonMinify.MinifyTwiceCanDiffer | sdk_v2.0.1/app/addition/cJSON.c:743-758 | on other texts a second pass can still remove something: an input that shows it |
| JsonMinifyTwice.MinifyChangesNothingIff | sdk_v2.0.1/app/addition/cJSON.c:743-758 | a pass changes nothing if and only if the text is bare: outside literals no white space and no comment mark, and every literal closed |
| JsonMinifyTwice.MinifyTwiceIff | sdk_v2.0.1/app/addition/cJSON.c:743-758 | a second pass changes nothing if and only if, in the text the first was given, no slash it kept had a slash or a star as the next byte kept |
| JsonComments.LineGoes | sdk_v2.0.1/app/addition/cJSON.c:752 | a line comment goes, up to the end of its line |
| JsonComments.BlockGoes | sdk_v2.0.1/app/addition/cJSON.c:753 | a block comment goes, up to the first close behind its opening slash |
| JsonComments.SpaceGoes | sdk_v2.0.1/app/addition/cJSON.c:748-751 | space, tab, carriage return and line feed go |
| JsonComments.LiteralStays | sdk_v2.0.1/app/addition/cJSON.c:754 | a literal stays, whatever it contains |
| JsonComments.OtherStays | sdk_v2.0.1/app/addition/cJSON.c:755 | any other byte stays |
| JsonComments.MinifiesParts | sdk_v2.0.1/app/addition/cJSON.c:743-758 | of any text in parts, minifying leaves the literals and the other bytes, in order, and nothing of the comments and the white space between them |
| RingView.ViewPut | sdk_v2.0.1/examples/esp_mqtt_proj/mqtt/ringbuf.c:32-46 | storing into the first free cell of a circular buffer appends to what it holds |
| RingView.ViewGet | sdk_v2.0.1/examples/esp_mqtt_proj/mqtt/ringbuf.c:53-67 | moving the start on removes the oldest byte |
| RingBuf.Ring.Init | sdk_v2.0.1/examples/esp_mqtt_proj/mqtt/ringbuf.c:16-25 | fewer than two bytes are refused and change nothing; otherwise the ring is empty |
| RingBuf.Ring.Put | sdk_v2.0.1/examples/esp_mqtt_proj/mqtt/ringbuf.c:32-46 | a full ring refuses and is unchanged, otherwise the byte is appended |
| RingBuf.Ring.Get | sdk_v2.0.1/examples/esp_mqtt_proj/mqtt/ringbuf.c:53-67 | an empty ring refuses, otherwise the oldest byte comes out and the rest stays |
| Framing.FlipIsXor | sdk_v2.0.1/examples/esp_mqtt_proj/mqtt/proto.c:37 | flipping bit 5 in the model is the source's exclusive or with 0x20 |
| Framing.FrameBytes | sdk_v2.0.1/examples/esp_mqtt_proj/mqtt/proto.c:106-128 | the bytes of a frame: 0x7E and 0x7F around the message, its own 0x7D, 0x7E and 0x7F as 0x7D and the byte 0x20 below |
| Framing.ParseFrame | sdk_v2.0.1/examples/esp_mqtt_proj/mqtt/proto.c:13-47 | a framed message at the front decodes to itself, whatever state the decoder starts in |
| Framing.MessagesAppend | sdk_v2.0.1/examples/esp_mqtt_proj/mqtt/proto.c:56-69 | what is decodable from two stretches is the concatenation, if the second begins at a frame mark |
| Framing.MessagesWithoutEnd | sdk_v2.0.1/examples/esp_mqtt_proj/mqtt/proto.c:13-47 | a stretch without an end mark holds no message |
| Framing.AlignedAppend | sdk_v2.0.1/examples/esp_mqtt_proj/mqtt/proto.c:106-128 | appending any prefix of a frame, even a truncated one, keeps every end mark followed by a begin mark |
| Framing.AlignedRest | sdk_v2.0.1/examples/esp_mqtt_proj/mqtt/proto.c:56-69 | taking a message off the front keeps it too |
| Proto.ProtoParser.ParseByte | sdk_v2.0.1/examples/esp_mqtt_proj/mqtt/proto.c:13-47 | one byte moves the decoder as the state machine says, and the end mark reports completion |
| Proto.ParseRb | sdk_v2.0.1/examples/esp_mqtt_proj/mqtt/proto.c:56-69 | draining the ring returns the first decodable message and leaves the rest, or empties the ring, for every initial begin flag |
| Proto.AddRb | sdk_v2.0.1/examples/esp_mqtt_proj/mqtt/proto.c:106-128 | the encoder appends the whole frame and returns its length, or fills the ring with a truncated frame and returns -1 |
| MqttQueue.PutKeeps | sdk_v2.0.1/examples/esp_mqtt_proj/mqtt/proto.c:106-128 | a put adds exactly its message to the decodable ones if it is accepted, and leaves them alone if it is not |
| MqttQueue.GetKeeps | sdk_v2.0.1/examples/esp_mqtt_proj/mqtt/proto.c:56-69 | a get takes exactly the first decodable message, whatever the begin flag was |
| MqttQueue.StepKeeps | sdk_v2.0.1/examples/esp_mqtt_proj/mqtt/queue.c:42-50 | one queue operation keeps: accepted messages are the removed ones, then the decodable ones, in order |
| MqttQueue.Conservation | sdk_v2.0.1/examples/esp_mqtt_proj/mqtt/queue.c:37-50 | the same over every run from an empty ring, truncated frames and arbitrary begin flags included, for messages of at most the output buffer's size |
| MqttQueue.EvictKeeps | sdk_v2.0.1/examples/esp_mqtt_proj/mqtt/mqtt.c:521-528 | the eviction loop as a function: what it evicts and what stays decodable add up to what was there and the new message |
| MqttQueue.EvictSuffix | sdk_v2.0.1/examples/esp_mqtt_proj/mqtt/mqtt.c:521-528 | on success the decodable queue is a suffix of the old one and the new message, on failure the ring is empty |
| MqttQueue.EvictSucceedsIff | sdk_v2.0.1/examples/esp_mqtt_proj/mqtt/mqtt.c:521-528 | the exact condition for success: the whole frame fits the free space, or one of the runs of bytes between two end marks that the evictions free is at least as long as the frame |
| MqttQueue.FitsEmptyRingYetRefused | sdk_v2.0.1/examples/esp_mqtt_proj/mqtt/mqtt.c:521-528 | a message that would fit an empty ring and is refused: a concrete ring |
| MqttPacket.FirstByteIsOr | sdk_v2.0.1/examples/esp_mqtt_proj/mqtt/mqtt_msg.c:111 | the source's shifts and masks of type, dup, qos and retain are the sum the model uses |
| MqttPacket.LengthRead | sdk_v2.0.1/examples/esp_mqtt_proj/mqtt/mqtt_msg.c:105-152 | the remaining length the builder wrote is read back if and only if it is at most 16383, what two bytes can carry (section 2.2.3 of MQTT 3.1.1) |
| MqttPacket.VariableLengthRead | sdk_v2.0.1/examples/esp_mqtt_proj/mqtt/mqtt_msg.c:135-152 | the reader's loop recovers a remaining length of any number of bytes |
| MqttPacket.PublishRecovered | sdk_v2.0.1/examples/esp_mqtt_proj/mqtt/mqtt_msg.c:135-227 | from every well-formed PUBLISH in a buffer that may hold more, type, QoS, total length, topic and payload are recovered |
| MqttPacket.IdRecovered | sdk_v2.0.1/examples/esp_mqtt_proj/mqtt/mqtt_msg.c:229-289 | the message id is recovered exactly when there is one to recover and a byte follows it, or QoS is 0 |
| MqttPacket.AckRecovered | sdk_v2.0.1/examples/esp_mqtt_proj/mqtt/mqtt_msg.c:389-419 | the id of every acknowledgement is recovered |
| MqttMsg.Connection.AppendString | sdk_v2.0.1/examples/esp_mqtt_proj/mqtt/mqtt_msg.c:63-74 | length and bytes are appended, or the call fails and changes nothing; nothing is written past the buffer length |
| MqttMsg.Connection.AppendMessageId | sdk_v2.0.1/examples/esp_mqtt_proj/mqtt/mqtt_msg.c:76-90 | an id that is never zero is drawn and appended if there is room |
| MqttMsg.Connection.FiniMessage | sdk_v2.0.1/examples/esp_mqtt_proj/mqtt/mqtt_msg.c:105-126 | the finished message is header, remaining length and body in one piece, right in front of the body |
| MqttMsg.Connection.Publish | sdk_v2.0.1/examples/esp_mqtt_proj/mqtt/mqtt_msg.c:363-387 | the built message is the PUBLISH of section 3.3 of MQTT 3.1.1; it fails exactly for an empty topic or a message longer than the buffer |
| MqttMsg.Connection.Acknowledge | sdk_v2.0.1/examples/esp_mqtt_proj/mqtt/mqtt_msg.c:389-419 | the four acknowledgement builders; they fail exactly when the buffer has fewer than five bytes |
| MqttMsg.Connection.Subscribe | sdk_v2.0.1/examples/esp_mqtt_proj/mqtt/mqtt_msg.c:421-439 | the SUBSCRIBE packet, and exactly when it cannot be built |
| MqttMsg.Connection.Unsubscribe | sdk_v2.0.1/examples/esp_mqtt_proj/mqtt/mqtt_msg.c:441-455 | the UNSUBSCRIBE packet, and exactly when it cannot be built |
| MqttMsg.Connection.Ping | sdk_v2.0.1/examples/esp_mqtt_proj/mqtt/mqtt_msg.c:457-467 | PINGREQ and PINGRESP always fit |
| MqttMsg.GetTotalLength | sdk_v2.0.1/examples/esp_mqtt_proj/mqtt/mqtt_msg.c:135-152 | the reader's loop computes the length function of the packet model |
| MqttMsg.GetPublishTopic | sdk_v2.0.1/examples/esp_mqtt_proj/mqtt/mqtt_msg.c:154-181 | the topic getter finds the model's slice, null results included |
| MqttMsg.GetPublishData | sdk_v2.0.1/examples/esp_mqtt_proj/mqtt/mqtt_msg.c:183-227 | the payload getter finds the model's slice, null results included |
| MqttMsg.GetId | sdk_v2.0.1/examples/esp_mqtt_proj/mqtt/mqtt_msg.c:229-289 | the id getter, for every packet type |
| MqttMsg.PublishThenRead | sdk_v2.0.1/examples/esp_mqtt_proj/mqtt/mqtt_msg.c:135-387 | building and reading back, for every buffer: whether it succeeds, and, for bodies whose length two bytes carry, total length, topic, payload and QoS return, and the id exactly when QoS is 0 or there is a payload |
| MqttIds.DrawnIs | sdk_v2.0.1/examples/esp_mqtt_proj/mqtt/mqtt_msg.c:76-90 | the ids drawn go round the numbers from 1 to 65535 |
| MqttIds.DrawsDiffer | sdk_v2.0.1/examples/esp_mqtt_proj/mqtt/mqtt_msg.c:76-90 | any two of 65535 consecutive draws differ and none is zero, wherever the counter stood |
| MqttIds.DrawsReturn | sdk_v2.0.1/examples/esp_mqtt_proj/mqtt/mqtt_msg.c:76-90 | after 65535 draws an id comes again |
| MqttIds.BuildAll | sdk_v2.0.1/examples/esp_mqtt_proj/mqtt/mqtt_msg.c:363-467 | over any sequence of builds, failed ones included: each message carries the id its build drew, no id comes twice among 65535 builds, and on a new connection the k-th id is k |
| MqttReceive.HandlePublish | sdk_v2.0.1/examples/esp_mqtt_proj/mqtt/mqtt.c:233-365 | one PUBLISH at the front of a segment gives its delivery, its acknowledgement if one is owed, and the rest of the segment |
| MqttReceive.HandleSegment | sdk_v2.0.1/examples/esp_mqtt_proj/mqtt/mqtt.c:233-365 | a segment that is a concatenation of well-formed PUBLISH packets is handled to the end: one delivery per packet in order, acknowledgements with the same ids queued while there is room |
| MqttReceive.LoopEndsIff | sdk_v2.0.1/examples/esp_mqtt_proj/mqtt/mqtt.c:240-355 | the loop, counted jump by jump, ends after some number of jumps if and only if no packet it comes to has the 16-bit length zero |
| MqttReceive.ProgressIsLocal | sdk_v2.0.1/examples/esp_mqtt_proj/mqtt/mqtt.c:240-355 | whether it ends depends on the segment alone, not on what the buffer held |
| MqttReceive.SixtyFourKilobytesStall | sdk_v2.0.1/examples/esp_mqtt_proj/mqtt/mqtt.c:346-355 | on the beginning of every PUBLISH whose total length is a multiple of 65536 the loop is still running after any number of jumps, because the length is kept in 16 bits |
| MqttReceive.ShortestStall | sdk_v2.0.1/examples/esp_mqtt_proj/mqtt/mqtt.c:346-355 | the shortest of them: a PUBLISH that announces 65532 bytes |
| MqttReceive.QueuedAppend | sdk_v2.0.1/examples/esp_mqtt_proj/mqtt/mqtt.c:295-335 | queueing acknowledgements in two parts is queueing them at once |
| MqttAnswers.AnswersExactly | sdk_v2.0.1/examples/esp_mqtt_proj/mqtt/mqtt.c:274-355 | every segment that does not begin with a PUBLISH, byte for byte: nothing is delivered; a PUBREC queues the PUBREL with its id, a PUBREL the PUBCOMP, a PINGREQ the PINGRESP, and any other packet nothing |
| MqttAnswers.HandshakeGoesOn | sdk_v2.0.1/examples/esp_mqtt_proj/mqtt/mqtt.c:313-335 | the same for a packet with the id from 1 to 65535 in front, whatever its flags, what follows it and what the buffer held |
| MqttAnswers.ReceivePubrec | sdk_v2.0.1/examples/esp_mqtt_proj/mqtt/mqtt.c:313-318 | a client with a session that receives a PUBREC queues its PUBREL |
| MqttAnswers.AnswerBytes | sdk_v2.0.1/examples/esp_mqtt_proj/mqtt/mqtt_msg.c:389-467 | the bytes of the acknowledgements and pings |
| MqttAnswers.OwedBytes | sdk_v2.0.1/examples/esp_mqtt_proj/mqtt/mqtt.c:295-307 | a PUBLISH is owed a PUBACK at QoS 1, a PUBREC at QoS 2, nothing at QoS 0, with its id, byte for byte |
| MqttAnswers.PublishBytes | sdk_v2.0.1/examples/esp_mqtt_proj/mqtt/mqtt_msg.c:363-387 | the bytes of a PUBLISH |
| MqttAnswers.SubscribeBytes | sdk_v2.0.1/examples/esp_mqtt_proj/mqtt/mqtt_msg.c:421-455 | the first bytes of SUBSCRIBE and UNSUBSCRIBE |
| MqttClient.EnqueueEvicting | sdk_v2.0.1/examples/esp_mqtt_proj/mqtt/mqtt.c:521-528 | the loop with its buffers and the ring does what the eviction function says, and terminates |
| MqttClient.Client.constructor | sdk_v2.0.1/examples/esp_mqtt_proj/mqtt/mqtt.c:718-762 | a new client has an empty queue and empty ledgers |
| MqttClient.Client.Enqueue | sdk_v2.0.1/examples/esp_mqtt_proj/mqtt/mqtt.c:521-528 | the decodable queue becomes a suffix of the old one and the new message, or nothing; the ledger of accepted and removed messages stays balanced |
| MqttClient.Client.Publish | sdk_v2.0.1/examples/esp_mqtt_proj/mqtt/mqtt.c:507-530 | MQTT_Publish: nothing happens if the packet cannot be built, otherwise exactly the built packet is queued |
| MqttClient.Client.Subscribe | sdk_v2.0.1/examples/esp_mqtt_proj/mqtt/mqtt.c:539-558 | MQTT_Subscribe: the built packet is queued; a packet that cannot be built is replaced by an empty message, for its length is not checked |
| MqttClient.Client.Unsubscribe | sdk_v2.0.1/examples/esp_mqtt_proj/mqtt/mqtt.c:566-584 | MQTT_UnSubscribe, likewise |
| MqttClient.Client.Ping | sdk_v2.0.1/examples/esp_mqtt_proj/mqtt/mqtt.c:591-611 | MQTT_Ping queues the two-byte packet |
| MqttClient.Client.SentInOrder | sdk_v2.0.1/examples/esp_mqtt_proj/mqtt/mqtt.c:656-680 | the messages the socket got from the queue are a subsequence of the accepted ones: some evicted, none reordered or invented |
| MqttClient.SendsAreSubsequence | sdk_v2.0.1/examples/esp_mqtt_proj/mqtt/mqtt.c:521-528 | the same of any ledger of sent and evicted messages |
| MqttClient.Client.Connected | sdk_v2.0.1/examples/esp_mqtt_proj/mqtt/mqtt.c:443-476 | the CONNECT packet is sent at once, the id counter starts again, and the client waits for its answer |
| MqttClient.Client.SendKeepalive | sdk_v2.0.1/examples/esp_mqtt_proj/mqtt/mqtt.c:116-150 | a PINGREQ goes to the socket past the queue, and what its answer makes of the state |
| MqttClient.Client.Task | sdk_v2.0.1/examples/esp_mqtt_proj/mqtt/mqtt.c:613-683 | in state MQTT_DATA the oldest decodable message is sent, exactly when none is under way and there is one; in state MQTT_KEEPALIVE_SEND a PINGREQ is; in every other state nothing |
| MqttClient.Client.SendNext | sdk_v2.0.1/examples/esp_mqtt_proj/mqtt/mqtt.c:656-680 | the oldest decodable message leaves the queue for the socket |
| MqttClient.Client.PutAnswer | sdk_v2.0.1/examples/esp_mqtt_proj/mqtt/mqtt.c:295-335 | an answer is queued if there is room and dropped otherwise, the ledgers staying balanced |
| MqttClient.Client.Deliver | sdk_v2.0.1/examples/esp_mqtt_proj/mqtt/mqtt.c:101-114 | the data callback gets the topic and payload slices of the buffer |
| MqttClient.Client.ReceiveOne | sdk_v2.0.1/examples/esp_mqtt_proj/mqtt/mqtt.c:274-355 | with a session, one round of the packet loop does what the receive model says, and tells whether another follows |
| MqttClient.Client.ReceiveLoop | sdk_v2.0.1/examples/esp_mqtt_proj/mqtt/mqtt.c:240-355 | with a session, the whole loop refines the receive model for every segment on which it ends |
| MqttClient.Client.Receive | sdk_v2.0.1/examples/esp_mqtt_proj/mqtt/mqtt.c:233-365 | in every state: with a session the segment is handled as the receive model says; otherwise nothing is delivered or answered, and a CONNACK that answers a CONNECT opens the session |
| MqttClient.Client.SentCallback | sdk_v2.0.1/examples/esp_mqtt_proj/mqtt/mqtt.c:372-387 | the way is free for the next message |
| MqttClient.Client.Timer | sdk_v2.0.1/examples/esp_mqtt_proj/mqtt/mqtt.c:389-412 | the send timeout counts down, and after the keep-alive time without traffic a keep-alive is due |
| MqttClient.ReceivePublishes | sdk_v2.0.1/examples/esp_mqtt_proj/mqtt/mqtt.c:233-365 | a client with a session that receives a segment of well-formed PUBLISH packets delivers each once, in order, and queues the acknowledgements owed while there is room |
| MqttClient.Serve | sdk_v2.0.1/examples/esp_mqtt_proj/mqtt/mqtt.c:116-683 | over every run of requests, segments, timers and callbacks the messages the socket got from the queue are accepted ones, in the order of their acceptance |
| SdioProtocol.ReadDoneKeeps | sdk_v2.0.1/examples/at_sdio/driver/sdio_slv.c:427-464 | the read-done interrupt, with or without a buffer in the loader's hand, keeps the invariant: five buffers, only the first queued one and the first free one partly filled, bytes accepted = delivered, queued, partial, in order |
| SdioProtocol.WindowKeeps | sdk_v2.0.1/examples/at_sdio/driver/sdio_slv.c:427-464 | any number of interrupts in one window keep it |
| SdioProtocol.TakeKeeps | sdk_v2.0.1/examples/at_sdio/driver/sdio_slv.c:358-399 | one round of the copying loop, with interrupts while the buffer is in hand, keeps it and accepts exactly the bytes copied |
| SdioProtocol.EnqueueKeeps | sdk_v2.0.1/examples/at_sdio/driver/sdio_slv.c:383-397 | a filled buffer joins the queue and is offered if the queue was empty |
| SdioProtocol.PutBack | sdk_v2.0.1/examples/at_sdio/driver/sdio_slv.c:371-378 | a buffer with room goes back to the front of the free list |
| SdioProtocol.SettleKeeps | sdk_v2.0.1/examples/at_sdio/driver/sdio_slv.c:402-409 | the last step of a call, and when it stalls the slave |
| SdioProtocol.LoopKeeps | sdk_v2.0.1/examples/at_sdio/driver/sdio_slv.c:356-409 | the copying loop accepts exactly a prefix of the data, under every interleaving |
| SdioProtocol.LoadKeeps | sdk_v2.0.1/examples/at_sdio/driver/sdio_slv.c:347-412 | a call returns the number of bytes it accepted, they are the first ones offered, and the invariant holds again, under every interleaving |
| SdioProtocol.LiveIffOwed | sdk_v2.0.1/examples/at_sdio/driver/sdio_slv.c:347-412 | after any call on a live slave a transfer runs exactly when the host is owed a byte; it always runs when the call accepted everything it was offered and that was not nothing |
| SdioProtocol.AtomicLiveIff | sdk_v2.0.1/examples/at_sdio/driver/sdio_slv.c:347-412 | with no interrupt inside, a call keeps the slave live if and only if it offers a byte or the slave was busy |
| SdioProtocol.StalledForGood | sdk_v2.0.1/examples/at_sdio/driver/sdio_slv.c:347-425 | a stalled slave stays stalled: no later call gets another byte to the host |
| SdioProtocol.DrainedBreakStalls | sdk_v2.0.1/examples/at_sdio/driver/sdio_slv.c:359-409 | the other way to stall: interrupts drain the queue between the loop's break and the last step, which runs with interrupts enabled |
| SdioProtocol.LoopTakesAll | sdk_v2.0.1/examples/at_sdio/driver/sdio_slv.c:356-409 | data that fits the free buffers is taken whole, whatever interrupts come |
| SdioProtocol.OverfullStalls | sdk_v2.0.1/examples/at_sdio/driver/sdio_slv.c:356-409 | data that does not fit stalls the slave under the interleaving that drains the queue after the last round |
| SdioProtocol.EmptyCallStalls | sdk_v2.0.1/examples/at_sdio/driver/sdio_slv.c:347-409 | a call without data stalls the slave if the queue drains before the last step |
| SdioProtocol.NeverStallsIff | sdk_v2.0.1/examples/at_sdio/driver/sdio_slv.c:347-412 | what a caller can tell beforehand: a call keeps a live slave live under every interleaving if and only if there is no free buffer, or the data is not empty and fits the free buffers |
| SdioProtocol.RunKeeps | sdk_v2.0.1/examples/at_sdio/driver/sdio_slv.c:347-464 | conservation and order over every run of calls and interrupts, under every interleaving |
| SdioProtocol.RunLive | sdk_v2.0.1/examples/at_sdio/driver/sdio_slv.c:347-464 | over every run of atomic calls with data, has_read is true exactly when nothing is queued, then nothing accepted waits, and otherwise a transfer runs |
| SdioSlave.RecycleLists | sdk_v2.0.1/examples/at_sdio/driver/sdio_slv.c:431-440 | the interrupt's pointer surgery keeps both lists linked, terminated and disjoint |
| SdioSlave.EnqueueLists | sdk_v2.0.1/examples/at_sdio/driver/sdio_slv.c:389-397 | so does appending the loader's buffer to the queue |
| SdioSlave.PutLists | sdk_v2.0.1/examples/at_sdio/driver/sdio_slv.c:377-378 | so does putting it back in front of the free list |
| SdioSlave.PromoteLists | sdk_v2.0.1/examples/at_sdio/driver/sdio_slv.c:402-407 | so does moving the front free buffer to an empty queue |
| SdioSlave.SdioSlave.constructor | sdk_v2.0.1/examples/at_sdio/driver/sdio_slv.c:133-150 | the start-up loop chains five empty buffers |
| SdioSlave.SdioSlave.LoadDone | sdk_v2.0.1/examples/at_sdio/driver/sdio_slv.c:311-345 | no transfer is started for zero bytes, and a longer length is cut to the buffer size |
| SdioSlave.SdioSlave.ReadDone | sdk_v2.0.1/examples/at_sdio/driver/sdio_slv.c:427-464 | the interrupt on the linked lists refines the protocol step, and the host read exactly the buffer the descriptor named |
| SdioSlave.SdioSlave.Round | sdk_v2.0.1/examples/at_sdio/driver/sdio_slv.c:358-399 | one round of the loop on the linked lists refines the protocol's round |
| SdioSlave.SdioSlave.Settle | sdk_v2.0.1/examples/at_sdio/driver/sdio_slv.c:402-409 | so does the last step |
| SdioSlave.SdioSlave.Load | sdk_v2.0.1/examples/at_sdio/driver/sdio_slv.c:347-412 | the loader refines the protocol's call for every schedule of interrupts |
| FlashStore.BurntErased | sdk_v2.0.1/app/user/iotgo_flash.c:34-36 | writing to an erased sector stores the data although a write can only clear bits |
| FlashStore.SaveAtomic | sdk_v2.0.1/app/user/iotgo_flash.c:23-50 | a save cut at any point leaves whole old or whole new parameters to load; a completed one leaves the new; the slot a load reads is never touched, nor any other sector |
| FlashStore.AtomicRegister | sdk_v2.0.1/app/user/iotgo_flash.c:8-50 | over every sequence of saves and power failures a load returns one save's parameters whole, never ones older than the last completed save |
| FlashStore.LayoutsFit | sdk_v2.0.1/examples/esp_mqtt_proj/modules/config.c:52-110 | both stores of the repository use three different sectors |
| FlashStore.ConfigStable | sdk_v2.0.1/examples/esp_mqtt_proj/modules/config.c:71-110 | the configuration found at boot stays the same at the next, even if power failed while the defaults were being stored; after a boot whose power lasted the next one writes nothing |
| ParamFlash.Flash.LoadParam | sdk_v2.0.1/app/user/iotgo_flash.c:8-21 | iotgoFlashLoadParam reads the slot the flag names |
| ParamFlash.Flash.SaveParam | sdk_v2.0.1/app/user/iotgo_flash.c:23-50 | iotgoFlashSaveParam, erase by erase and write by write, is the save of the model and atomic |
| ParamFlash.SysConfig.Save | sdk_v2.0.1/examples/esp_mqtt_proj/modules/config.c:45-68 | CFG_Save is the same save on its own sectors |
| ParamFlash.SysConfig.Load | sdk_v2.0.1/examples/esp_mqtt_proj/modules/config.c:71-110 | CFG_Load returns what is stored if it carries the marker, otherwise the defaults, and stores those |
| SproStream.CutConserves | sdk_v2.0.1/app/addition/Spro.c:247-389 | frames, errors and residue together are the bytes of the buffer, in order |
| SproStream.TimerCoversRest | sdk_v2.0.1/app/addition/Spro.c:341-388 | bytes that stay behind always have the timer running |
| SproStream.ClassifyStable | sdk_v2.0.1/app/addition/Spro.c:249-339 | a verdict on the front of the buffer does not change when more bytes arrive |
| SproStream.CutAppend | sdk_v2.0.1/app/addition/Spro.c:247-389 | cutting a clean stream in two steps is cutting it at once |
| SproStream.RunConserves | sdk_v2.0.1/app/addition/Spro.c:19-391 | over every run of chunks and timer expiries, whatever the bytes: those handed to callbacks, then those buffered, are those stored |
| SproStream.BenignIndependence | sdk_v2.0.1/app/addition/Spro.c:226-391 | however a stream is cut that has no error, or ends with the bytes that show it, the callbacks and the residue are those of the whole stream |
| SproStream.ChunkingIndependence | sdk_v2.0.1/app/addition/Spro.c:226-391 | in particular however a clean stream is cut into non-empty chunks that fit |
| SproStream.SplitShows | sdk_v2.0.1/app/addition/Spro.c:226-391 | any other stream can be cut so that it is reported differently: right behind the bytes that show the error |
| SproStream.ChunksInvisibleIff | sdk_v2.0.1/app/addition/Spro.c:226-391 | chunks do not show in the callbacks if and only if the stream has no error or ends with the one or two bytes that show it |
| SproStream.FramesDelivered | sdk_v2.0.1/app/addition/Spro.c:226-391 | for every sequence of unmasked text, binary, ping and pong frames of section 5.2 of RFC 6455 and every such chunking, exactly those frames are delivered, in order, flagged whole |
| SproStream.SmallChunksFit | sdk_v2.0.1/app/addition/Spro.c:72-89 | chunks of at most c bytes always find room when the longest frame short of a byte and c bytes fit together |
| SproStream.SmallChunksDeliver | sdk_v2.0.1/app/addition/Spro.c:226-391 | so a buffer of that size delivers every sequence of such frames, however it is cut |
| SproStream.StrayByte | sdk_v2.0.1/app/addition/Spro.c:232-242 | an input that shows it: a stray byte before a frame, reported as one error in one chunk, and as an error and the frame in two |
| SproStream.TakenFits | sdk_v2.0.1/app/addition/Spro.c:72-89 | of a chunk the longest beginning that fits is taken |
| SproFrames.FrameIff | sdk_v2.0.1/app/addition/Spro.c:249-339 | the header checks find a frame of n bytes if and only if the first n bytes are one: final text or binary with a 7-bit or 16-bit length and as much payload, or a bare ping or pong |
| SproFrames.BadIff | sdk_v2.0.1/app/addition/Spro.c:249-339 | bytes are rejected if and only if no frame can come of them, whatever follows |
| SproFrames.RejectedIff | sdk_v2.0.1/app/addition/Spro.c:232-339 | a buffer is reported once, in full and unflagged, if and only if it begins with another first byte, a data header with a mask or an eight-byte length, or a ping or pong with a mask or a payload |
| SproFrames.RunTruthful | sdk_v2.0.1/app/addition/Spro.c:19-391 | over every run of chunks and expiries: what is flagged whole is exactly one frame, and in front of what is not flagged there is none |
| SproFrames.ServeTruthful | sdk_v2.0.1/app/addition/Spro.c:19-391 | the receive object itself tells its callback the truth |
| Spro.Spro.Flush | sdk_v2.0.1/app/addition/Spro.c:41-45 | the buffer is empty and starts with a zero |
| Spro.Spro.Read | sdk_v2.0.1/app/addition/Spro.c:47-70 | the delivered package is shifted out and the rest kept |
| Spro.Spro.Write | sdk_v2.0.1/app/addition/Spro.c:72-89 | a chunk is appended as far as it fits |
| Spro.Spro.Inspect | sdk_v2.0.1/app/addition/Spro.c:249-339 | the header checks give the verdict of the model, with its error callback |
| Spro.Spro.Deliver | sdk_v2.0.1/app/addition/Spro.c:341-379 | a whole frame is delivered and what follows it is kept or rejected |
| Spro.Spro.Process | sdk_v2.0.1/app/addition/Spro.c:226-391 | one chunk: callbacks, residue and timer are those of the stream model, and the loop ends |
| Spro.Spro.TimerCallback | sdk_v2.0.1/app/addition/Spro.c:19-34 | on expiry what is left is handed over as it is |
| Spro.Spro.Serve | sdk_v2.0.1/app/addition/Spro.c:19-391 | any run of chunks and expiries refines the stream model |
| Sha256.PaddedIsWhole | sdk_v2.0.1/app/addition/sha256.c:234-251 | the padded message is made of whole blocks (section 5.1.1 of FIPS 180-2) |
| Sha256.PaddingIsLeast | sdk_v2.0.1/app/addition/sha256.c:247-248 | with fewer zeros it would not be |
| Sha256.BlocksAppend | sdk_v2.0.1/app/addition/sha256.c:212-217 | whole blocks can be compressed as they come |
| Sha256Context.SigmasAgree | sdk_v2.0.1/app/addition/sha256.c:78-85 | the shift-and-or macros are the rotations of FIPS 180-2 |
| Sha256Context.ChoicesAgree | sdk_v2.0.1/app/addition/sha256.c:87-88 | F0 is Maj and F1 is Ch |
| Sha256Context.StepIsRound | sdk_v2.0.1/app/addition/sha256.c:96-101 | the in-place step on renamed registers is a round |
| Sha256Context.Extend | sdk_v2.0.1/app/addition/sha256.c:90-94 | the schedule computed on the fly is the message schedule |
| Sha256Context.Eight | sdk_v2.0.1/app/addition/sha256.c:112-119 | eight steps with rotated register names are eight rounds, and the names are back in place |
| Sha256Context.Process | sdk_v2.0.1/app/addition/sha256.c:56-185 | sha256_process is the compression of section 6.2.2 of FIPS 180-2 |
| Sha256Stream.CountUp | sdk_v2.0.1/app/addition/sha256.c:196-200 | the two-word byte counter with its carry test counts modulo 2^64 |
| Sha256Stream.BitLength | sdk_v2.0.1/app/addition/sha256.c:240-245 | the eight length bytes are the bit length, most significant byte first |
| Sha256Stream.ShiftsAreSums | sdk_v2.0.1/app/addition/sha256.c:240-247 | the shifts and masks on the counter are the sums and remainders the model uses |
| Sha256Stream.PaddingParts | sdk_v2.0.1/app/addition/sha256.c:226-248 | the table and the computed count give the one bit and the zeros |
| Sha256Stream.Context.Update | sdk_v2.0.1/app/addition/sha256.c:187-224 | an update of any length absorbs exactly its bytes |
| Sha256Stream.Context.Finish | sdk_v2.0.1/app/addition/sha256.c:234-261 | the digest is that of the whole message, for messages below 2^61 bytes |
| Sha256Stream.HashParts | sdk_v2.0.1/app/addition/sha256.c:41-261 | every way to cut a message into updates gives the digest of the concatenation |
| Sha256Constants.InitialRegisters | sdk_v2.0.1/app/addition/sha256.c:41-54 | the initial registers are the fractions of the square roots of the first eight primes (section 5.3.2 of FIPS 180-2) |
| Sha256Constants.RoundConstants0 | sdk_v2.0.1/app/addition/sha256.c:112-119 | the constants of rounds 0 to 7 are the fractions of the cube roots of their primes (section 4.2.2) |
| Sha256Constants.RoundConstants1 | sdk_v2.0.1/app/addition/sha256.c:120-127 | the constants of rounds 8 to 15 are the fractions of the cube roots of their primes (section 4.2.2) |
| Sha256Constants.RoundConstants2 | sdk_v2.0.1/app/addition/sha256.c:128-135 | the constants of rounds 16 to 23 are the fractions of the cube roots of their primes (section 4.2.2) |
| Sha256Constants.RoundConstants3 | sdk_v2.0.1/app/addition/sha256.c:136-143 | the constants of rounds 24 to 31 are the fractions of the cube roots of their primes (section 4.2.2) |
| Sha256Constants.RoundConstants4 | sdk_v2.0.1/app/addition/sha256.c:144-151 | the constants of rounds 32 to 39 are the fractions of the cube roots of their primes (section 4.2.2) |
| Sha256Constants.RoundConstants5 | sdk_v2.0.1/app/addition/sha256.c:152-159 | the constants of rounds 40 to 47 are the fractions of the cube roots of their primes (section 4.2.2) |
| Sha256Constants.RoundConstants6 | sdk_v2.0.1/app/addition/sha256.c:160-167 | the constants of rounds 48 to 55 are the fractions of the cube roots of their primes (section 4.2.2) |
| Sha256Constants.RoundConstants7 | sdk_v2.0.1/app/addition/sha256.c:168-175 | the constants of rounds 56 to 63 are the fractions of the cube roots of their primes (section 4.2.2) |
| Sha256Example.DigestOfAbc | sdk_v2.0.1/app/addition/sha256.c:41-261 | the digest of the example in appendix B.1 of FIPS 180-2, worked through round by round |
| LightFade.StrictProgress | sdk_v2.0.1/examples/IoT_Demo/user/user_light_adj.c:156-158 | a tick moves strictly towards the target and never past it |
| LightFade.NoOverflow | sdk_v2.0.1/examples/IoT_Demo/user/user_light_adj.c:156 | the product stays inside 32 bits for every duty light_set_aim can set, even when period * 1000 wraps |
| LightFade.TickMirrors | sdk_v2.0.1/examples/IoT_Demo/user/user_light.c:57-65 | a saved duty that mirrors the driver keeps mirroring it; one that does not is repaired within two ticks unless the channel is stuck |
| LightFade.Converges | sdk_v2.0.1/examples/IoT_Demo/user/user_light_adj.c:152-179 | with mirrored duties the timer stops within as many ticks as the sum of the distances, the driver showing the targets |
| LightFade.FadeReachesAim | sdk_v2.0.1/examples/IoT_Demo/user/user_light_adj.c:152-285 | from a settled lamp light_set_aim ends with exactly the duties asked for |
| LightFade.NeverFinishes | sdk_v2.0.1/examples/IoT_Demo/user/user_light_adj.c:152-179 | a stuck channel keeps the timer running for ever |
| LightFade.FinishesIff | sdk_v2.0.1/examples/IoT_Demo/user/user_light_adj.c:152-179 | whatever the saved duties, a running fade ends if and only if no channel is stuck |
| LightFade.BootStuck | sdk_v2.0.1/examples/IoT_Demo/user/user_light.c:112-150 | the filter at boot is stuck exactly for duties from 1 to 20 |
| LightFade.BootStuckIff | sdk_v2.0.1/examples/IoT_Demo/user/user_light.c:112-150 | with the clamping of the targets, some channel is stuck at boot if and only if a saved duty lies between 1 and 20 |
| LightFade.BootEndsIff | sdk_v2.0.1/examples/IoT_Demo/user/user_light.c:112-150 | the fade user_light_init starts ends if and only if no saved duty lies between 1 and 20 |
| LightFade.BootStaysDark | sdk_v2.0.1/examples/IoT_Demo/user/user_light.c:112-150 | a channel with such a duty stays at zero and the timer runs for ever |
| LightFade.SetAimTakesAtOnce | sdk_v2.0.1/examples/IoT_Demo/user/user_light_adj.c:194-221 | an event is taken at once, so none waits between calls, and the lamp is settled again |
| LightFade.AdjustSettles | sdk_v2.0.1/examples/IoT_Demo/user/user_light_adj.c:165-177 | finished means the driver shows the targets and the saved duties mirror it |
| LightFade.LimitIs | sdk_v2.0.1/examples/IoT_Demo/user/user_light_adj.c:278-285 | the limit on a duty is the greatest one whose 45 ns steps fit the period |
| LightRate.SnapsIff | sdk_v2.0.1/examples/IoT_Demo/user/user_light_adj.c:156-158 | a tick takes the last 21 steps down, or the last 20 up, at once, and no more |
| LightRate.GoesASixteenth | sdk_v2.0.1/examples/IoT_Demo/user/user_light_adj.c:156-158 | any other tick goes a sixteenth of the distance |
| LightRate.FadeLasts | sdk_v2.0.1/examples/IoT_Demo/user/user_light_adj.c:152-179 | a fade lasts: with one channel at distance d and 15^k (d + 15) > 36 16^k it still runs after k + 1 ticks, up or down |
| LightRate.FadeEnds | sdk_v2.0.1/examples/IoT_Demo/user/user_light_adj.c:152-179 | and it ends: with all channels at a distance d with 15^k (d - 15) <= 5 16^k, k + 1 ticks end it |
| LightRate.AimLasts | sdk_v2.0.1/examples/IoT_Demo/user/user_light_adj.c:152-285 | how long a settled lamp at least takes for the duties asked for |
| LightRate.AimEnds | sdk_v2.0.1/examples/IoT_Demo/user/user_light_adj.c:152-285 | and at most |
| Light.WaitingPush | sdk_v2.0.1/examples/IoT_Demo/user/user_light_adj.c:58-73 | a new event goes behind the waiting ones in the ring of forty |
| Light.Lamp.TickOne | sdk_v2.0.1/examples/IoT_Demo/user/user_light_adj.c:155-160 | one channel's tick in 32-bit arithmetic is the model's |
| Light.Lamp.Adj | sdk_v2.0.1/examples/IoT_Demo/user/user_light_adj.c:152-179 | the tick and the mutual recursion behind it refine the model, end, and leave the timer armed exactly while unfinished |
| Light.Lamp.SmoothAdj | sdk_v2.0.1/examples/IoT_Demo/user/user_light_adj.c:194-221 | likewise for the procedure that takes the next event |
| Light.Lamp.Aim | sdk_v2.0.1/examples/IoT_Demo/user/user_light_adj.c:273-353 | light_set_aim with its clamping |
| Light.Init | sdk_v2.0.1/examples/IoT_Demo/user/user_light.c:112-150 | user_light_init: the period it falls back to, the driver at zero, and the saved duties as targets |
| UartRings.EqualPositions | sdk_v2.0.1/driver_lib/driver/uart.c:476 | equal positions mean an empty ring or a full one, nothing else |
| UartRings.ViewAppend | sdk_v2.0.1/driver_lib/driver/uart.c:436-440 | a block copied behind the contents appends to them |
| UartRings.UartBuffer.Copy | sdk_v2.0.1/driver_lib/driver/uart.c:431-452 | the one or two block copies append the data and account for the space |
| UartRings.UartBuffer.TxEnqueue | sdk_v2.0.1/driver_lib/driver/uart.c:536-556 | all of the data is queued, or none if it does not fit |
| UartRings.UartBuffer.FifoInsert | sdk_v2.0.1/driver_lib/driver/uart.c:568-579 | the oldest bytes leave in order |
| UartRings.UartBuffer.TxStart | sdk_v2.0.1/driver_lib/driver/uart.c:588-609 | as much as the hardware queue has room for leaves, and nothing is left out without need |
| UartRings.UartBuffer.RxEnqueue | sdk_v2.0.1/driver_lib/driver/uart.c:507-532 | the hardware's bytes are taken only if a cell stays free, so the ring is never full |
| UartRings.UartBuffer.TakeStraight | sdk_v2.0.1/driver_lib/driver/uart.c:476-479 | the branch without wrap stays in bounds and takes the right bytes, because the ring is not full |
| UartRings.UartBuffer.RxDequeue | sdk_v2.0.1/driver_lib/driver/uart.c:469-503 | the oldest bytes come out, at most as many as asked for and as there are |
| UartRings.RxRunKeeps | sdk_v2.0.1/driver_lib/driver/uart.c:469-532 | over every run the receive ring keeps a free cell and the bytes fetched and held are those accepted, in order |
| UartRings.ServeRx | sdk_v2.0.1/driver_lib/driver/uart.c:469-532 | the ring on its array runs as that model does |
| UartRings.TxRunKeeps | sdk_v2.0.1/driver_lib/driver/uart.c:536-609 | over every run the transmit ring, which may fill up completely, sends and holds the accepted bytes, in order |
| UartRings.TxFills | sdk_v2.0.1/driver_lib/driver/uart.c:536-556 | it does fill up: 256 bytes leave no space |
| UartRings.ServeTx | sdk_v2.0.1/driver_lib/driver/uart.c:536-609 | the ring on its array runs as that model does, its count of free cells included |
| UartRings.TxCreate | sdk_v2.0.1/driver_lib/driver/uart.c:536-547 | the call that creates the ring holds its data, if it fits |
| UartRings.RxMoves | sdk_v2.0.1/driver_lib/driver/uart.c:469-532 | in numbers: an arrival is taken up to 255 bytes in all or not at all, a fetch gives what it asks for or all there is |
| UartRings.TxMoves | sdk_v2.0.1/driver_lib/driver/uart.c:536-609 | in numbers: data is queued up to 256 bytes in all or not at all, and the hardware is filled up to 128 bytes while there is anything to fill it with |

## Left out

- JsonText: cJSON nodes are values with `child` and `next` as constructor arguments, not heap cells; sharing of nodes, deletion, references and the array and object editing functions are not modelled.
- JsonPrinter.PrintNumber: fractional numbers are not modelled, because the source prints two decimals only and means no round trip; exponents in the parser are skipped as the source skips them.
- JsonPrintBuffer.PrintBuffer.PutNumber: integers only, as in `JsonPrinter.PrintNumber`.
- JsonPrinter.PrintString: null strings and null keys, which print as empty, are not modelled; neither are failing allocations anywhere in the library.
- JsonPrintBuffer.PrintBuffer.Ensure: texts longer than 2^30 bytes, where `pow2gt` would overflow, are outside the model.
- JsonMinify.Minify: texts with an unclosed literal or block comment, on which the source reads past the terminator, are excluded by the precondition.
- JsonMinify.CopyLiteral: closed literals only, for the same reason.
- JsonSyntax.TextsExactly: where an error is reported is the position the parser's functions give (`JsonParser.ReadValue`); no law of its own says what that position means.
- JsonParser.ReadValue: bytes behind the terminator are taken to read as NUL.
- Proto.AddRb: rings above 32767 bytes are excluded, because the returned count is a 16-bit signed integer.
- MqttMsg.GetTotalLength: the overflow of the C `int` for remaining lengths of more than four bytes is not modelled.
- MqttMsg.PublishThenRead: for bodies above 16383 bytes only the success of the builder is stated; that their length is not read back is `MqttPacket.LengthRead`.
- MqttClient.Client.Receive: segments on which the loop runs for ever are excluded by the precondition (they are those of `MqttReceive.LoopEndsIff`); the disconnection on a CONNACK that answers no CONNECT, TLS, the connected and published callbacks and the pending-acknowledgement bookkeeping are not modelled.
- MqttClient.Serve: for the same reason its segments are those on which the loop ends.
- MqttClient.Client.Task: what it does in the states without a session (reconnecting, name lookup, deleting) touches neither queue nor ledger and is not modelled; those states are one.
- MqttClient.Client.Connected: the CONNECT packet is a parameter; its builder, with the last will and the credentials, is not modelled.
- MqttClient.Client.Timer: the reconnect counter is not modelled.
- `PROTO_Add`, which the queue does not use, and `PROTO_Parse`.
- SdioSlave.SdioSlave.Load: nodes are numbered and pointers are numbers; the copy into a buffer is one step although interrupts are enabled during it, which they cannot observe; the returned count is not limited to 31 bits; registers and the host-to-slave direction are not modelled.
- ParamFlash.Flash.SaveParam: reads never fail and a finished erase or write has its full effect; return codes of the flash functions, which the source ignores, are not modelled. `iotgoFlashCipher` and `iotgoFlashDecipher` are not modelled.
- Spro.Spro.Read: the buffer is given twice its nominal size in memory, because the source clears as many bytes behind the rest as the rest is long.
- Spro.Spro.Process: a package callback is always set; without one the source discards what it would report. HTTP reassembly and the upgrade connection are not modelled.
- SproStream.ChunksInvisibleIff: chunks must find room in the buffer, and the buffer takes the whole stream; what overflow drops is modelled only in the byte count of `SproStream.RunConserves`.
- Sha256Stream.HashParts: stands for any program that calls the three functions in order; it is not in the source.
- Light.Lamp.Aim: the current limiter, which is compiled out, is not modelled; `pwm_get_duty` is taken to return the duty last set, and periods are only recorded. The single-channel `light_set_aim_r` and its siblings, which do not clamp, are not modelled.
- UartRings.TxCreate: the first call copies without comparing the length with the ring's, and is modelled only for data that fits.
- UartRings.UartBuffer.TxEnqueue: interrupt enabling is not modelled.
- The SDIO driver copy under `driver_lib`, the easy byte ring of `sdk_v2.0.1/app/driver/uart.c`, register access, Wi-Fi and the closed libraries.
