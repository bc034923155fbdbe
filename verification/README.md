# Benthos dive computer library: a verified model

This project models the parts of the Benthos dive computer library where the logic is hardest, in Dafny, and
proves what they promise. `dafny verify dfyconfig.toml` checks everything.

* **Uwatec Smart profiles.** A dive profile is a stream of variable-length records, each with a prefix-code
  tag, payload bits and up to two extra bytes. `DtiTables` holds the seven model tables, `DtiCodec` the decoder
  for one record and, as its measure, an encoder. `ProfileSpec` gives the meaning of a record list as a pure
  fold, `ProfileParser` the parser object with its loops, proved equal to that fold. `ProfileLaws` and
  `ProfileChannels` state what a whole run sends on every channel without mentioning the parser state;
  `RecordFormats` gives every record of every model number as a bit pattern and proves that it is read so,
  `ProfileSamples` the whole callback sequence sample by sample, and `ProfileTheorems` the accepted buffers and
  the two ways out of the tables and the buffer.
* **Framing and transport.** `DiveExtract` splits a transfer into dives; `Base64` is the text encoding;
  `SmartiServer` writes the XFER reply, `SmartiClient` reads it, `XferRoundTrip` proves that the two fit.
  `DeviceTransfer` has the chunked read loops of the driver and of the daemon. `EndToEnd` composes them.
* **Structures that live for a whole run.** `Connections` is the daemon's sentinel list, `Session` the device
  handle of one connection over every command sequence, `GasMixes` the UDDF mix table over every series of
  dives, `ManifestSpec`, `ManifestParser` and `Registry` the plugin manifests, driver lookup and library
  handles. `ManifestTheorems` says exactly which
  trees are manifests, `ManifestPrinter` writes manifests as trees, for the round trip.
* **Argument strings.** `ArgList` is the scanner for `name=value:name=value` with doubled separators, and the
  exact condition under which printing and parsing are inverse.

`Words`, `Decimal`, `Names` and `Wrappers` hold bytes, 32-bit words, decimal numerals, names without case and
options.

## How the model relates to the source

* C integers are modelled as what they hold: bytes 0..255, 32-bit words with an explicit reduction modulo 2^32
  wherever the source adds, subtracts or multiplies, signed values by their two's-complement reading.
* Code that changes fields, lists or buffers is a class or a method with loops; its `ensures` equate the new
  state with a function of the old one, and the lemmas are about that function.
* Where the source would touch memory outside a buffer, read memory it never wrote, release what it did not
  allocate, or loop for ever, the model stops with an outcome of its own, and a member says exactly when:

  | outcome | what the source does | exact condition |
  |---|---|---|
  | `UndefinedRow` | uses the row after the last of a profile table | `ProfileTheorems.UndefinedRowExactly` |
  | `OverflowMissed` | reads extra bytes after the profile buffer | `ProfileTheorems.OverflowMissedExactly` |
  | `Stalled` | delivers the same empty dive for ever | `DiveExtract.FrameMeaning`, `DiveExtract.StopsExactly` |
  | `OutOfBuffer` | reads a header or slice past the buffer | `DiveExtract.FrameMeaning`, `DiveExtract.StopsExactly` |
  | `Overlong`, `PastBuffer` | leaves a 258-character token buffer | `ArgList.ArgListParse`, over the tokens of the unbounded scan |
  | `Unspecified` | goes on with a line it never read | `SmartiClient.UnspecifiedExactly` |
  | `InvalidFree` | frees the address of the caller's pointer | `DeviceTransfer.DaemonTransfer`, `DeviceTransfer.BreaksExactly` |

  `Waiting` is different: it only says that the given reads are used up before the transfer has ended.
* Environment answers (device return values, sockets, dlopen, file search, callbacks' cancel flag) are
  parameters; every theorem holds for all of them.

Where code and documentation disagree, the model follows the code:

* `smart_parser.c:921` tests `id > dti_size`, so an index equal to the size passes. `UndefinedRowExactly`
  says for which buffers that happens, `MissingRowExactly` gives the bytes per model.
* A command name that matches no entry gets no reply at all, because the test after the dispatch loop looks at
  the last real entry (`smartid_cmd.c:185`). The dispatch takes the first command that *begins* with the name.
* `arglist.h:48-52` says doubling embeds any separator. It does not always: `RoundTripExactly`.
* `smartid_conn.h:106` says a blank line ends the data; the code sends one newline, and that is what the client
  reads.
* `registry.h:154-156` offers `plugin.driver` to tell drivers apart; a plugin whose own name has a dot is not reached that
  way (`QualifiedNameExactly`).
* The client reports a transfer as successful when the decoder has refused the text (`NullExactly`).
* In the Smart Com table the comment on the last row (`smart_parser.c:196`) shows a tag of 14 bits; the row says
  12, which is what its position requires, and that is modelled. Bytes as the comment has them are refused
  (`SmartComComment`).

## Model

| member | source | states |
|---|---|---|
| DtiTables.LayoutsValid | src/common-smart/smart_parser.c:114-217 | In every table each row encodes its own tag (tag length = index + 1 in the unary tables, the nibble code for Galileo), has 1 to 16 payload bits, an alarm or tank index below 3, and TIME payloads fit 8 bits |
| DtiCodec.SmartIdentify | src/common-smart/smart_parser.c:669-689 | The bit-scanning loops return the length of the run of one bits in the first eight bytes, or 255 without a zero bit |
| DtiCodec.UnaryTagMeaning | src/common-smart/smart_parser.c:669-689 | That index is the position of the first zero bit: all earlier bits are one; 255 means that no bit in the window is zero |
| DtiCodec.IdentifyExactly | src/common-smart/smart_parser.c:669-703 | Identification yields row `id` if and only if the head of the bytes is exactly that row's tag |
| DtiCodec.FirstPayloadByteInside | src/common-smart/smart_parser.c:724-757 | The byte with the first payload bits lies inside the buffer although it is read before the overflow test |
| DtiCodec.DecodeEncode | src/common-smart/smart_parser.c:718-764 | Decoding an encoded record followed by anything gives back the record and its width |
| DtiCodec.EncodeDecode | src/common-smart/smart_parser.c:718-764 | Any decoded record is well formed, its width is positive and inside the buffer, and re-encoding it gives the bytes it was read from |
| DtiCodec.RoundTrip | src/common-smart/smart_parser.c:912-933 | For every list of well-formed records, decoding its encoding returns exactly that list and ends cleanly |
| DtiCodec.AcceptedStreamsAreEncodings | src/common-smart/smart_parser.c:912-933 | What is decoded from any bytes encodes to a prefix of them, and to all of them exactly when decoding ends cleanly |
| DtiCodec.UniquelyDecodable | src/common-smart/smart_parser.c:114-217 | Two record lists with the same encoding are equal |
| DtiCodec.DecodeSplits | src/common-smart/smart_parser.c:912-933 | Decoding an encoded list followed by more bytes decodes the list and then the rest |
| DtiCodec.StopsExactly | src/common-smart/smart_parser.c:912-933 | Decoding stops in a given way if and only if the bytes are the encoding of some records followed by bytes whose first record stops it in that way |
| ProfileSpec.SignedPayload | src/common-smart/smart_parser.c:705-716 | Sign extension is the two's-complement reading of the payload bits, for 1 to 16 bits |
| ProfileParser.OverflowTestExact | src/common-smart/smart_parser.c:741-748 | The 32-bit overflow test is right if and only if the sum does not wrap |
| ProfileParser.Create | src/common-smart/smart_parser.c:219-299 | A parser in its reset state for the model numbers 16, 17, 18, 19, 20, 24 and 28, and none for any other number |
| RecordFormats.ModelFormats | src/common-smart/smart_parser.c:114-299 | The formats of a model number, written as header size, bit patterns and alarm names, are what its parser gets |
| RecordFormats.ReadsExactly | src/common-smart/smart_parser.c:669-764 | The record at the head of a byte string, from its bits alone: a pattern that matches is read with its width, its payload bits and its skipped bits as numbers; one that is cut off is truncated; without any pattern there is no record |
| RecordFormats.EffectExactly | src/common-smart/smart_parser.c:886-1007 | What the parser of a model number does with first bytes that match a pattern: width, effect and callbacks, or the error |
| RecordFormats.SmartComComment | src/common-smart/smart_parser.c:180-197 | Bytes that begin as the comment beside the last Smart Com row shows are refused; the row has twelve type bits |
| ProfileParser.SmartParser.Reset | src/common-smart/smart_parser.c:310-339 | Reset restores the initial state from any state |
| ProfileParser.SmartParser.ParseDti | src/common-smart/smart_parser.c:766-869 | The state change of one record: deltas, absolute values, sticky flags, the first-absolute calibration |
| ProfileParser.SmartParser.SendWaypoint | src/common-smart/smart_parser.c:944-1006 | One waypoint sends time, depth and the known channels in order, clears the one-shot flags, advances time by 4 |
| ProfileParser.SmartParser.ReadDti | src/common-smart/smart_parser.c:718-764 | Slicing, for every buffer a uint32_t can size: the big-endian payload, its signed reading and the new offset if the record fits; if not, the error, or the marker when the overflow test wraps |
| ProfileParser.SmartParser.ReadDtiAgrees | src/common-smart/smart_parser.c:718-764 | Reading at an offset of the whole buffer agrees with the record decoder on the remaining bytes |
| ProfileParser.SmartParser.DrainSample | src/common-smart/smart_parser.c:941-1007 | The inner loop sends one waypoint for each unit of `complete` and leaves it 0 |
| ProfileParser.SmartParser.ParseRecord | src/common-smart/smart_parser.c:912-1007 | One outer iteration: identify, slice, apply, drain, or the error, on the same state |
| ProfileParser.SmartParser.ParseProfile | src/common-smart/smart_parser.c:886-1011 | For every buffer and every starting state, code, callbacks and final state equal the fold over the decoded records |
| ProfileLaws.RunSplits | src/common-smart/smart_parser.c:886-1011 | Parsing a ++ b is parsing a and then b from the state a leaves, callbacks concatenated |
| ProfileLaws.WaypointValues | src/common-smart/smart_parser.c:944-953 | A waypoint carries the time once, and the depth relative to the calibration exactly when the depth flag is set |
| ProfileLaws.RunConserves | src/common-smart/smart_parser.c:941-1007 | After a reset the TIME callbacks are 0, 4, 8, ... modulo 2^32, as many as the records complete waypoints; the DEPTH callbacks are twice (last absolute plus later deltas minus first absolute) modulo 2^32, once an absolute was seen; nothing is left undrained |
| ProfileLaws.CalibrationIsFixed | src/common-smart/smart_parser.c:816-834 | From any calibrated state no records change the parser's calibration |
| ProfileLaws.FirstAbsoluteCalibrates | src/common-smart/smart_parser.c:816-834 | From any uncalibrated state the parser is calibrated afterwards if and only if an absolute depth came, and to twice the first one, whatever came later |
| ProfileLaws.CombinedRecord | src/common-smart/smart_parser.c:770-774 | A combined record built from a 7-bit pressure change and an 8-bit depth change moves pressure by 250 times the first and depth by twice the second |
| ProfileChannels.MetersConserve | src/common-smart/smart_parser.c:766-1007 | Temperature, pressure, bottom time, heart rate and tank index hold the last absolute value plus all later changes modulo 2^32, are known exactly after an absolute value, and are then sent once per waypoint with that value |
| ProfileChannels.OnceConserves | src/common-smart/smart_parser.c:846-860 | Bearing and alarms go out with the first waypoint after such a record and never again; alarm groups keep the flags last set |
| ProfileChannels.AlarmSentExactly | src/common-smart/smart_parser.c:974-1001 | A callback for bit j of group i is sent if and only if that flag is set |
| ProfileSamples.AlarmNameExactly | src/common-smart/smart_parser.c:871-884 | The name sent with an alarm: ascent and bookmark on the Aladin Tec 2G for bits 1 and 2 of group 0, otherwise alarm, group and bit |
| ProfileSamples.AlarmsOrdered | src/common-smart/smart_parser.c:974-1001 | The alarms of a waypoint come by group and then by bit, each at most once |
| ProfileSamples.SamplesExactly | src/common-smart/smart_parser.c:941-1007 | The whole callback sequence after a reset is the expected samples in order: each begins with its time stamp, then depth, meters, bearing and alarms as the records so far give them |
| ProfileSamples.GroupsStamped | src/common-smart/smart_parser.c:941-1007 | The k-th sample has time 4k modulo 2^32, and no time stamp stands inside a sample |
| ProfileSamples.StampedRun | src/common-smart/smart_parser.c:944-1006 | The first callback of a run that sends anything is time 0; pairing every other callback with the last time stamp before it gives exactly the expected pairs |
| ProfileTheorems.MissingRowExactly | src/common-smart/smart_parser.c:915-926 | The first bytes for which the index equals the table size, exactly, for each of the seven models |
| ProfileTheorems.UndefinedRowExactly | src/common-smart/smart_parser.c:886-926 | parse_profile reads the missing row if and only if the length checks pass and the body is well-formed records followed by exactly those bytes |
| ProfileTheorems.MissingRowWitness | src/common-smart/smart_parser.c:886-926 | Every Galileo buffer with a correct 152-byte header and the body 0xFA makes parse_profile read the missing row |
| ProfileTheorems.OverflowMissedExactly | src/common-smart/smart_parser.c:741-748 | The wrapped overflow test lets a record through if and only if well-formed records lead to one that ends past byte 2^32, which takes a buffer of at least 2^32 - 2 bytes |
| ProfileTheorems.OverflowMissedWitness | src/common-smart/smart_parser.c:741-748 | Every Smart Pro buffer of 2^32 - 1 bytes made of a correct header, one-byte records and a last byte 0xFC makes parse_profile read bytes after it |
| ProfileTheorems.SuccessExactly | src/common-smart/smart_parser.c:894-933 | Parsing succeeds if and only if the header is there, the declared size is the size, and the body is the encoding of some well-formed record list |
| ProfileTheorems.ProfileSplits | src/common-smart/smart_parser.c:886-1011 | Parsing the bytes of some records followed by anything is the run of the records, then the run of what the rest decodes to from the state left |
| ProfileTheorems.EncodedDive | src/common-smart/smart_parser.c:886-1011 | A fresh parser on any header that declares the size, followed by encoded records, succeeds with exactly the expected time stamps and calibrated depths |
| DiveExtract.ReadFrame | src/common-smart/smart_extract.c:40-55 | The checks of one iteration, in their order |
| DiveExtract.ExtractDives | src/common-smart/smart_extract.c:29-62 | The splitting loop delivers what the splitting function says, code included |
| DiveExtract.FrameExactly | src/common-smart/smart_extract.c:40-55 | A dive of at least 12 bytes is found at a position if and only if a well-formed dive stands there |
| DiveExtract.FrameMeaning | src/common-smart/smart_extract.c:40-55 | Each outcome of an iteration, errors and markers included, in terms of the bytes at its position: found, corrupt, too short, declared length zero, reading past the buffer (wrapping sum included) |
| DiveExtract.CallbackExactly | src/common-smart/smart_extract.c:29-62 | A well-formed dive is A5 A5 5A 5A, its own length with the low byte first, and any rest; the token shown is the number in bytes 8 to 11 |
| DiveExtract.SlicesConcatenate | src/common-smart/smart_extract.c:37-61 | The delivered slices are the buffer's bytes in order, all of them exactly on success; otherwise the code is what stands after them |
| DiveExtract.ExtractConcat | src/common-smart/smart_extract.c:29-62 | Extracting a concatenation of well-formed dives returns exactly those dives with their tokens |
| DiveExtract.ExtractConcatThen | src/common-smart/smart_extract.c:29-62 | Well-formed dives in front of any bytes are delivered first, and the bytes decide code and further dives |
| DiveExtract.StopsExactly | src/common-smart/smart_extract.c:37-61 | The loop ends with a code if and only if some chain of frames leads from the start to bytes that stand for it, or to the end of the buffer for success |
| DiveExtract.StaysInsideExactly | src/common-smart/smart_extract.c:37-61 | The source ends and stays inside its buffer if and only if some chain of frames leads to the end, to a wrong header byte, or to a length seen to be too large |
| DiveExtract.StalledWitness | src/common-smart/smart_extract.c:37-58 | Twelve bytes on which the source never ends: the header, length zero, any token |
| DiveExtract.OutOfBufferWitness | src/common-smart/smart_extract.c:40 | One to three header bytes at the end make the source read past its buffer |
| DiveExtract.SlicesWellFormed | src/common-smart/smart_parser.c:902-908 | Every delivered slice of at least 12 bytes has the length its own header declares, which the parser checks first |
| DiveExtract.SuccessExactly | src/common-smart/smart_extract.c:29-62 | Success without a slice shorter than a dive header holds if and only if the buffer is a concatenation of well-formed dives |
| Base64.Encode | src/common-util/base64.c:68-97 | The array loop and the padding in place produce the specified text |
| Base64.Decode | src/common-util/base64.c:100-133 | The decoding loop produces the specified bytes, NULL exactly when the length is not a multiple of four |
| Base64.EncodeIsRfc4648 | src/common-util/base64.c:68-97 | The text agrees with section 4 of RFC 4648: sextets of every 24-bit group, '=' padding |
| Base64.AlphabetExactly | src/common-util/base64.c:32-66 | The encoding table is the 64 characters of Table 1 of RFC 4648 in order, the decoding table their inverse and -1 for every other character |
| Base64.DecodeEncode | src/common-util/base64.c:68-133 | Decoding the encoding of any non-empty byte string gives it back |
| Base64.EncodeIsCanonical | src/common-util/base64.c:68-97 | Encodings are canonical: whole groups, padding only at the end, zero pad bits |
| Base64.EncodeDecodeExactly | src/common-util/base64.c:68-133 | Re-encoding what a text decodes to gives the text back if and only if the text is canonical (section 3.5 of RFC 4648) |
| Base64.DecodeExactly | src/common-util/base64.c:100-133 | Decoding on every text, characters outside the alphabet counting as -1: length and bytes of every group |
| Decimal.StrToUlOfShow | src/plugins/smarti/smarti_client.c:1457 | Reading back a printed decimal number below 2^64 gives the number |
| Decimal.StrToUlReads | src/plugins/smarti/smarti_client.c:1457 | strtoul on white space, an optional sign, a number and any tail: the number, negated modulo 2^64, or the largest value |
| SmartiServer.Connection.SendBuffer | src/smartid/smartid_conn.c:359-393 | What is appended to the output: nothing for an empty buffer, otherwise the announced length and the text |
| SmartiClient.Client.ReadLn | src/plugins/smarti/smarti_client.c:153-242 | The reading loop equals the line function for every sequence of socket events |
| SmartiClient.ReadLineFits | src/plugins/smarti/smarti_client.c:153-242 | A line never exceeds its buffer, terminator included |
| SmartiClient.Client.TrimText | src/plugins/smarti/smarti_client.c:1486-1488 | The trimming loop keeps everything up to the last Base 64 character |
| SmartiClient.Client.Xfer | src/plugins/smarti/smarti_client.c:1391-1502 | Outcome and unread events of a transfer for every event sequence; the socket timeout is restored on every path |
| SmartiClient.UnspecifiedExactly | src/plugins/smarti/smarti_client.c:1391-1488 | The client goes on with memory it never wrote if and only if the connection ends before the status line or before the announced text, or that text has no Base 64 character |
| SmartiClient.UnspecifiedWitness | src/plugins/smarti/smarti_client.c:1391-1488 | A server that closes at once is enough |
| SmartiClient.NullExactly | src/plugins/smarti/smarti_client.c:1490-1501 | A transfer reports success without data if and only if the announced text length is not a multiple of four |
| SmartiClient.NullWitness | src/plugins/smarti/smarti_client.c:1490-1501 | One announced character is enough |
| XferRoundTrip.ReadsLine | src/plugins/smarti/smarti_client.c:153-242 | A line that fits is returned whole, whatever interruptions come between its characters |
| XferRoundTrip.ReadsOn | src/plugins/smarti/smarti_client.c:153-242 | Characters before the end of a line are collected up to the size of the buffer, whatever interruptions come between |
| XferRoundTrip.LineEnds | src/plugins/smarti/smarti_client.c:153-242 | How each way of ending a line is reported, and with which text |
| XferRoundTrip.DevInfoExactly | src/plugins/smarti/smarti_client.c:445-468 | The information is what follows the last colon and space of the message; without one there is none |
| XferRoundTrip.StatusParses | src/plugins/smarti/smarti_client.c:324-339 | Every three-digit status and its message are read back from the printed line |
| XferRoundTrip.AnnouncementParses | src/plugins/smarti/smarti_client.c:324-468 | The announced text length survives the status parser, the information parser and strtoul |
| XferRoundTrip.DataReplyIs | src/smartid/smartid_conn.c:359-393 | The data reply, character by character: 301 Data Follows, the length of the text in decimal, the text |
| XferRoundTrip.LengthChecked | src/plugins/smarti/smarti_client.c:1459-1501 | A text that is not as long as announced is refused, whatever it decodes to |
| XferRoundTrip.ReplyReceived | src/plugins/smarti/smarti_client.c:1391-1502 | For every non-empty buffer the client decodes the daemon's reply to that buffer and leaves nothing of it unread |
| XferRoundTrip.StatusReceived | src/smartid/smartid_conn.c:327-339 | Every other status with a message of one line that fits is received as that status and message, however the line is delivered |
| DeviceTransfer.ReadAll | src/plugins/smart/smart_driver.c:480-523 | The chunk loop fills the buffer with the chunks in order and makes the specified reports, for all read outcomes and cancellations |
| DeviceTransfer.ChunksInOrder | src/smartid/smartid_device.c:407-450 | The chunks are a prefix of the device's bytes in order, never too many, all exactly when done (or cancelled at the last report) |
| DeviceTransfer.CodeExactly | src/plugins/smart/smart_driver.c:480-523 | The loop is done, times out, fails or is cancelled if and only if some read makes it so: all earlier ones brought bytes, what they offered is or is not enough, and the callbacks answered accordingly |
| DeviceTransfer.TransferIndependent | src/smartid/smartid_device.c:407-450 | Two finished transfers agree whatever the chunk sizes, read splits and callbacks |
| DeviceTransfer.TransferCompletes | src/plugins/smart/smart_driver.c:480-523 | If every read brings a byte and nothing cancels, as many reads as bytes are enough |
| DeviceTransfer.ClampedCompletes | src/smartid/smartid_device.c:245-249 | With the chunk size the daemon gives a device, whatever was requested, non-empty reads deliver exactly the first bytes in pieces of at most 32 |
| DeviceTransfer.ReportsIncrease | src/plugins/smart/smart_driver.c:466-523 | Progress stays within bounds, ends at the size, and increases strictly if and only if no read came back empty |
| DeviceTransfer.IncreaseExactly | src/plugins/smart/smart_driver.c:466-523 | With the bytes there and room for one, progress increases strictly if and only if every read that is made and brings something brings at least one byte |
| DeviceTransfer.DriverTransfer | src/plugins/smart/smart_driver.c:437-527 | The driver's transfer: empty, length mismatch, cancelled at once, or the loop |
| DeviceTransfer.DaemonTransfer | src/smartid/smartid_device.c:366-455 | The daemon's transfer: nothing to read, short reply, or the loop, with data only when it is done; done, and the invalid release, if and only if the arriving reads meet a stated condition |
| DeviceTransfer.BreaksExactly | src/smartid/smartid_device.c:426-444 | The loop breaks if and only if some read fails or times out while the reads before it, all with bytes, have not offered enough |
| DeviceTransfer.BreakWitness | src/smartid/smartid_device.c:426-444 | A failure of the first read is enough |
| EndToEnd.DownloadedDives | src/smartid/smartid_cmd.c:548-591 | The bytes the device delivered are the bytes the client receives, and splitting them gives exactly the device's dives |
| EndToEnd.DownloadedProfile | src/common-smart/smart_parser.c:886-1011 | A dive made of the header bytes, its size, any other fields and encoded records is well formed for the splitter and parses to exactly those records |
| EndToEnd.DownloadedRecords | src/smartid/smartid_cmd.c:548-591 | The whole download: from the device's dives, through chunked reads, the reply and the splitter, the k-th slice parses with success to the records of the k-th dive |
| ArgList.ArgListParse | src/common-util/arglist.c:40-179 | The scanner builds a linked list with exactly the pairs of the scan, fails at a lone '=' in a value, and runs past a buffer exactly when a token read does not fit |
| ArgList.AcceptedIsWritten | src/common-util/arglist.c:72-178 | Every accepted string is its own pairs written out with doubled separators, lone colons between them and a lone '=' before each value that is there; of a refused string the part before the '=' that stops the scanner is |
| ArgList.ReadString | src/common-util/arglist.c:237-259 | The value of the first entry with the name; an empty value and a missing name are told apart, missing exactly when no entry has the name |
| ArgList.LookupExactly | src/common-util/arglist.c:237-259 | A lookup on pairs: missing exactly when no pair has the name, otherwise the first that has it decides |
| ArgList.Count | src/common-util/arglist.c:192-203 | The number of entries |
| ArgList.RoundTripExactly | src/common-util/arglist.c:72-178 | Parsing printed pairs gives them back if and only if they fit the token buffers, no value begins with '=' and no name after the first begins with ':' |
| ArgList.RoundTripFails | include/benthos/divecomputer/arglist.h:48-52 | A pair that does not survive: ("a", "=b") comes back as ("a=", "b") |
| ArgList.OverlongWitness | src/common-util/arglist.c:54-112 | A name of n letters runs past its buffer if and only if n is at least 258 |
| ArgList.ShortStringsSafe | src/common-util/arglist.c:54-158 | A string of at most 257 characters is always parsed inside the buffers |
| ArgList.EntriesAreSeparators | src/common-util/arglist.c:72-178 | A successful parse yields one entry more than there are unescaped colons |
| Connections.ConnectionList.Add | src/smartid/smartid_conn.c:93-110 | Adding puts the connection first and keeps all links consistent |
| Connections.ConnectionList.Dispose | src/smartid/smartid_conn.c:269-319 | Disposing unlinks exactly that connection and keeps the order of the others |
| Connections.ConnectionList.Cleanup | src/smartid/smartid_conn.c:321-325 | Cleanup ends with an empty list, every live connection disposed once, in list order |
| Connections.ConnectionList.WalkVisits | src/smartid/smartid_conn.c:93-110 | Following `next` from the sentinel visits the live connections once each and ends: the chain has no cycle |
| Connections.ConnectionList.LinksMutual | src/smartid/smartid_conn.c:269-325 | `next` and `prev` are inverse to each other along the chain, sentinel included |
| Connections.Serve | src/smartid/smartid_conn.c:93-325 | Any history of additions and disposals keeps the list equal to the live connections |
| Connections.DisposedOnce | src/smartid/smartid_conn.c:269-325 | Conservation over any history: live before plus added is disposed plus live after, each connection as often |
| Connections.ServeThenCleanup | src/smartid/smartid_conn.c:93-325 | After any history and the cleanup nothing is live and every connection was disposed exactly as often as it was added |
| Session.Connection.Process | src/smartid/smartid_cmd.c:135-190 | Every command keeps at most one device, and the codes it sends tell whether a device is open afterwards |
| Session.RepliesTellDevice | src/smartid/smartid_cmd.c:223-591 | For every state, command and device outcome the command kind, whether a device was open, and the new reply codes determine whether one is open now; earlier replies are untouched |
| Session.ClientKnows | src/smartid/smartid_cmd.c:223-591 | Over every command sequence a client that sees only its commands and the replies knows whether the daemon holds a device for it |
| Session.OneReplyExactly | src/smartid/smartid_cmd.c:135-591 | A command gets exactly one reply if and only if it is none of the named exceptions: unknown names, device lists, help, a refused token, an empty transfer |
| Session.RepliesCount | src/smartid/smartid_cmd.c:135-591 | A session of n commands outside those exceptions has exactly n replies |
| Session.RunKeepsOneDevice | src/smartid/smartid_cmd.c:223-591 | Over every command sequence and device outcome a connection has no device or exactly one live one, the newest |
| Session.SessionDisposesAll | src/smartid/smartid_conn.c:299-301 | When the connection is gone every handle allocated in the session has been disposed exactly once, before the next was allocated |
| Session.Connection.DisposeConnection | src/smartid/smartid_conn.c:299-301 | The object's own history ends with every handle allocated and disposed in turn |
| Session.FindCommand | src/smartid/smartid_cmd.c:169-184 | The dispatch loop takes the first command that begins with the name |
| Session.FullNames | src/smartid/smartid_cmd.c:79-93 | Every command is reached by its full name |
| Session.UnknownExactly | src/smartid/smartid_cmd.c:169-190 | A line is ignored, without a reply, if and only if no command begins with its non-empty name |
| Session.LineReads | src/smartid/smartid_cmd.c:139-166 | Blanks, a name in any mixture of cases, and a blank and more or nothing: the name is read in lower case, and there are parameters exactly when something follows it |
| Session.PrefixDoes | src/smartid/smartid_cmd.c:169-184 | An abbreviation does what the first command that begins with it does |
| Session.CloseDoes | src/smartid/smartid_cmd.c:223-235 | close: 501 with parameters, 400 without a device, otherwise the device is disposed and 210 sent |
| Session.OpenDoes | src/smartid/smartid_cmd.c:340-409 | open: 501, 410, 520 in their cases; a device that answers 0 is the new handle and 210 is sent; one that fails is disposed with its own code or 520 |
| Session.EnumDoes | src/smartid/smartid_cmd.c:237-287 | enum: 501 with parameters, 510 without the bus, 241 for no devices, otherwise one 230 for every device |
| Session.HelpDoes | src/smartid/smartid_cmd.c:289-303 | help: 501 with parameters, otherwise eleven lines of 230 |
| Session.QueryDoes | src/smartid/smartid_cmd.c:305-479 | model, serial and size: 501, 400, 230, or an error code with the loss of the device |
| Session.StoredDoes | src/smartid/smartid_cmd.c:481-521 | tcorr and ticks: 501, 400, 230, or 520 with the loss of the device |
| Session.TokenDoes | src/smartid/smartid_cmd.c:523-546 | token: 501, 400 and 210 in their cases, 520 followed by 210 when the device refuses it |
| Session.XferDoes | src/smartid/smartid_cmd.c:548-591 | xfer: 301 exactly when data came, nothing for empty data, 243 and 540 keep the device, every other error loses it |
| Session.EmptyDoes | src/smartid/smartid_cmd.c:149-154 | An empty line is answered with 220 and nothing else |
| Session.ProcessLine | src/smartid/smartid_cmd.c:135-190 | A command line: the handler that its name, in lower case, is dispatched to, run with or without parameters |
| GasMixes.AddKeepsTableOk | src/transferapp/output_uddf.cpp:205-218 | The generated name mix-<size> is fresh, and the table keeps its gas pairs distinct |
| GasMixes.Formatter.HeaderCallback | src/transferapp/output_uddf.cpp:435-497 | The per-dive mixes and tanks equal what the header callbacks so far reported |
| GasMixes.ReportedExactly | src/transferapp/output_uddf.cpp:435-497 | The mix of a tank holds the last report of each gas, 0 without one, and there is a mix exactly when a gas was reported |
| GasMixes.Formatter.LinkTank | src/transferapp/output_uddf.cpp:189-226 | A tank is linked to a mix with its gases, added if none has them, or to air when none was reported |
| GasMixes.Formatter.Epilog | src/transferapp/output_uddf.cpp:173-229 | Every tank of the dive gets one link, in index order; no existing mix changes |
| GasMixes.TanksExactly | src/transferapp/output_uddf.cpp:435-497 | A tank is linked exactly when a pressure or a non-zero gas was reported for it; links come by index |
| GasMixes.FormatDives | src/transferapp/output_uddf.cpp:137-229 | Over any series of dives every link resolves in the final table to the gases reported for that tank in that dive; the table holds air, ean32 and ean36 with their gases and otherwise names mix-k |
| GasMixes.SameGasSameMix | src/transferapp/output_uddf.cpp:189-226 | Two tanks refer to the same mix if and only if the same gas was reported for them, unreported counting as air |
| ManifestSpec.AppendAllExactly | src/library/manifest.cpp:133-169 | Appending with the duplicate check succeeds if and only if every item reads and the whole list has no clash, and then yields that list |
| Names.SameNameExactly | src/library/manifest.cpp:133-169 | Two names are the same if and only if they agree character by character up to the case of ASCII letters |
| ManifestSpec.AcceptedManifestOk | src/library/manifest.cpp:543-698 | An accepted manifest has its names, driver names distinct without regard to case, and in every driver the same for parameters and models, at most one of type 'model' |
| ManifestParser.DriverWrapper.ParseParams | src/library/manifest.cpp:237-360 | The parameter loop grows the list by all parameters or fails exactly when one is unreadable, repeated, or a second 'model' |
| ManifestParser.DriverWrapper.ParseModels | src/library/manifest.cpp:362-475 | The model loop, with the default manufacturer |
| ManifestParser.DriverWrapper.ParseDriver | src/library/manifest.cpp:543-622 | The driver loop over its attributes and elements |
| ManifestParser.ManifestFile.ParseManifest | src/library/manifest.cpp:624-698 | The manifest loop accepts exactly what the reading function accepts and fills in the same manifest |
| ManifestTheorems.NumberExactly | src/library/manifest.cpp:409-437 | An id is the number after white space and a sign, whatever follows it, as a 32-bit int |
| ManifestTheorems.ModelExactly | src/library/manifest.cpp:362-475 | An element is a model if and only if it has only the two attributes in any order, a readable id set once, at most one manufacturer that is not empty, and text as its only content; what is read from it |
| ManifestTheorems.ParamExactly | src/library/manifest.cpp:237-360 | An element is a parameter if and only if it has only the three attributes in any order, a name and a known type, and at most a text; what is read from it |
| ManifestTheorems.PartsIndependent | src/library/manifest.cpp:543-622 | The four parts of a driver are read independently of each other and of the order of the elements |
| ManifestTheorems.DriverExactly | src/library/manifest.cpp:543-622 | An element is a driver if and only if its attributes, its children and all its lists together are acceptable; what is read from it |
| ManifestTheorems.ManifestExactly | src/library/manifest.cpp:624-698 | A tree is a manifest if and only if its attributes are acceptable, name and library are not empty, every child element is a driver, and no two drivers clash; what is read from it |
| ManifestPrinter.ManifestReads | src/library/manifest.cpp:543-698 | A manifest written as an XML tree, white space and comments between the elements, is read back exactly, whatever default manufacturers are used, provided it has its names, no clashes, and only what can be written |
| ManifestPrinter.ModelReads | src/library/manifest.cpp:362-475 | A printed model element is read back: number, name, and its own manufacturer or the default of the list |
| ManifestPrinter.ForeignRefused | src/library/manifest.cpp:237-698 | Attributes and elements of other names are refused at every level |
| Registry.AcceptedNames | src/library/registry.cpp:149-183 | After any history of registrations plugin names are distinct without regard to case, and none that was offered is missing |
| Registry.QualifiedLookup | src/library/registry.cpp:507-532 | The drivers that match a plugin part and a driver part: the driver of that name in the first manifest registered under that plugin name, or none |
| Registry.QualifiedNameExactly | src/library/registry.cpp:491-540 | A registered driver is found under `plugin.driver` if and only if its plugin's name has no dot, as the name is split at the first one |
| Registry.DottedPluginWitness | src/library/registry.cpp:501-506 | Driver `d` of plugin `a.b`: the name `a.b.d` finds nothing |
| Registry.QualifiedNeverAmbiguous | src/library/registry.cpp:491-540 | A name with a non-empty plugin part is never ambiguous, after any history |
| Registry.UnqualifiedLookup | src/library/registry.cpp:491-540 | Without a plugin part the number of matches is the number of accepted plugins that provide the driver |
| Registry.MatchingExactly | src/library/registry.cpp:512-532 | The candidates of a lookup are exactly the registered drivers that match, plugin and driver name compared without regard to case |
| Registry.Registry.RegisterManifest | src/library/registry.cpp:149-183 | Registration fails exactly for an unreadable manifest or a taken plugin name, and otherwise appends all its drivers |
| Registry.Registry.DriverInfo | src/library/registry.cpp:491-540 | The lookup loop answers not found, the driver, or ambiguous exactly when none, one or several drivers match |
| Registry.ResolveExactly | src/library/registry.cpp:491-540 | The outcome of a lookup by the number of registered drivers whose names agree, letter by letter and up to case, with the parts of the name |
| Registry.ResolveCase | src/library/registry.cpp:491-540 | Names that differ only in the case of letters have the same outcome |
| Registry.Registry.LoadPlugin | src/library/registry.cpp:249-320 | Every failure after dlopen closes the handle; a loaded plugin is not opened again |
| Registry.Registry.LoadDriver | src/library/registry.cpp:542-572 | The code of a load in every case; no library of another plugin is touched, only plugins of registered drivers are ever loaded, and the handle history only grows |
| Registry.Registry.Cleanup | src/library/registry.cpp:443-466 | Every handle ever opened has been closed exactly once, and unloaded once before that if and only if its load had succeeded |
| Registry.RegisterAll | src/library/registry.cpp:149-183 | Files added one after the other leave exactly the drivers that the lookup lemmas speak of |
| Registry.LoadsThenCleanup | src/library/registry.cpp:249-466 | The same balance of handles after any sequence of loads followed by cleanup |

## Left out

- ProfileParser.SmartParser.ParseProfile: a null callback, which only suppresses the callbacks, and a NULL parser; what the source reads in the two marked cases.
- ProfileParser.SmartParser.ReadDti: the debug output and the error text; a bit count of 0 or above 32 in the sign extension, which no table produces.
- DiveExtract.ExtractDives: sizes of 2^32 and more do not fit the argument; the callback's own return value is ignored by the source too.
- DiveExtract.SlicesWellFormed: slices of 1 to 11 declared bytes are delivered although shorter than a dive header; they are the reason for the side condition.
- SmartiServer.Connection.SendBuffer: texts of 2^31 characters or more, where the int loop counters of the encoder overflow; failing allocations.
- EndToEnd.DownloadedDives: the reply is assumed to reach the client as sent, split and interrupted in any way, but not cut off; cut-off replies are covered by SmartiClient.Client.Xfer.
- DeviceTransfer.DaemonTransfer: what follows when a failed read has freed the address of the caller's pointer (smartid_device.c:431 and 440); the model stops there with `InvalidFree`.
- Session.RunKeepsOneDevice: an I/O or timeout error of XFER stands for a failed command exchange; when the chunk loop itself fails, the source has already freed an address that it did not allocate (smartid_device.c:431 and 440) and nothing is promised.
- DeviceTransfer.DriverTransfer: the two command exchanges that deliver the lengths, the token, and the device callback are parameters or absent.
- Connections.ConnectionList.Dispose: requires a connection that was added; the early failure paths at smartid_conn.c:213-228 dispose of one that was not. Closing sockets and freeing buffers are not modelled.
- Session.Connection.Process: reply texts and the values read from the device; only reply codes and handle events are kept.
- GasMixes.FormatDives: the XML that is written, the nitrogen fraction, and the search order over the map, which cannot matter because gases are distinct.
- ManifestSpec.AcceptedManifestOk: version numbers are checked but not kept; attributes with an empty value, whose missing text node the source follows without a check.
- Registry.Registry.Cleanup: the order in which the libraries are unloaded; disposal of the manifests' memory.
- Per-model header parsers of `smart_parser.c`: fixed-offset field reads; only the length check is modelled.
- Sockets, select loops, deadlines, IrDA enumeration and connection: a socket is a sequence of events.
- The client's write of the XFER command and every other client command.
- Clocks, epochs, time zones and tick correction.
- The libdivecomputer wrapper, CSV output, option parsing, logging, daemonising and the progress bar.
- libxml2, iconv, boost and dlopen: a parsed tree, given file names and numbered handles stand for them; searching paths for manifests and libraries, and the lists of files and paths already added.
- `setup_pointers` and the driver iterators: they republish the lists as C arrays.
- `arglist_has`, `arglist_hasvalue` and the numeric argument readers: they add easy members or rest on `sscanf`.
- Memory management: allocation failures and releases, except where a release is the point (handles, devices, connections).
- Big-endian and 16- and 24-bit readers of `unpack.c`, which the modelled code does not use.
