# A model of the login server, and what is proved of it

The login server accepts TCP connections from game clients, authenticates
each with its first packet, exchanges XTEA-encrypted messages with it, hands
what comes in to Lua modules, and talks to a central server in JSON over
Redis. This project models the parts of it that hold its hard
guarantees. Code that changes state step by step is modelled by methods and
classes that change state; each is proved against functions on values, and
the promises of the server are theorems about those functions, over all
inputs and all runs.

| files | part of the server |
|---|---|
| Words, Chunks, Feistel, Xtea, XteaAnswers, Adler, Sha1, Sha1Answers, Options | machine words, the XTEA loops, the two digests, their known answers |
| Fields, NetworkMessage, OutputMessage, Frame, CharacterList, Login | message buffers, their fields, the encrypted frame, the first packet |
| Sessions, Connection, Wire, Conversation | one connection, all connections under their manager, a byte stream from sender to receiver, and a whole conversation |
| JsonValues, JsonText, JsonParser, JsonStrings, JsonGrammar, JsonGraph, JsonRoundTrip, JsonCycles, JsonRefusals, JsonCodec, Utf8 | the JSON codec: what it reads, what it prints and what it refuses |
| Dispatcher, DispatcherRuns, DispatcherProgress | the task queue, its threads, and how soon they get on |
| Registry, Modules | module callbacks, the manager's index over them, event delivery |
| Answers | requests to the central server and their answers |

`dafny verify dfyconfig.toml` checks all of it.

## Conventions

- Bytes, 16-bit and 32-bit words are integers with their range; 32-bit
  additions wrap as in C++. Bit operations are done on `bv32`. `memcpy` of an
  integer is a little-endian store.
- `Frames.Frame` is the one description of the wire format. The send path is
  proved to produce it and the receive path to take it apart, each from its own
  loops over its own buffer; `Wire` puts the two together.
- A Lua table is an entry list in the order in which `pairs` visits it, and the
  border that `#` returns. Tables refer to each other by number, so they can
  be shared and can form cycles. A Lua string is a string of characters.
- What the environment decides is a parameter or a nondeterministic step: read
  completions, timeouts, the clock, the outcome of a publish, what a Lua handler
  does, what `tonumber` makes of a text other than a small integer.

## Where the code does less than it seems to promise

Each has a witness and the exact condition.

- A body of 24567 bytes can be written, but `addPaddingBytes` refuses its
  padding; the frame goes out and the receiver drops it (`Frames.SizeLimit`,
  `Wire.LongestIsLost`).
- A wrong checksum is no error: the receiver takes the four checksum bytes for
  cipher text and goes on (`Frames.WrongChecksum`,
  `Frames.WrongChecksumDelivered`).
- `addCharacterList` writes the number of characters as one byte, and does not
  notice a write that is refused. The list reads back if and only if there are
  at most 255 characters and every write was let through
  (`CharacterLists.CharacterListRoundTrip`, `CharacterLists.TooManyCharacters`,
  `CharacterLists.NameTooLong`).
- The decoder accepts more than RFC 8259 does: a comma before a closing bracket
  or brace, and any number that `tonumber` takes and that starts with a digit or
  a minus sign. `JsonGrammar.JsonGrammar` is the exact grammar (`JsonGrammar.TrailingComma`).
- A surrogate escape on its own is accepted and becomes octets that are not
  UTF-8 (`Utf8.SingleEscape`, `Utf8.LoneSurrogate`).
- A high surrogate escape followed by any other escape is accepted as a pair
  (`Utf8.LowSurrogatesPair`, `Utf8.UnpairedSurrogate`), and the result can lie
  beyond U+10FFFF or be a surrogate (`Utf8.PairOutcome`,
  `Utf8.OutOfRangePair`, `Utf8.PairToSurrogate`).
- The check for sparse arrays only counts the keys (`JsonGraph.SparseCheck`,
  `JsonCycles.SparseTablePasses`).
- The test `!= callback` in the identified branch of `emit` drops a handler when
  the handler invoked before it has the same reference
  (`Modules.SkipsNothing`, `Modules.LostInvocation`).
- A request of `requestCentralAnswer` whose data cannot be encoded never leaves,
  but keeps its entry, and an answer with its number runs its callback
  (`Answers.AnswerRuns`, `Answers.UnpublishedAnswered`).
- A callback of `requestCentralAnswer` that raises an error keeps its entry, and
  the same answer runs it again (`Answers.DuplicateAnswer`).
- `Dispatcher::stop` between the run of the shutdown task and the next check
  brings the dispatcher back to its wait (`DispatcherProgress.StopMatters`,
  `DispatcherProgress.StopUndoesShutdown`). Nothing in the repository calls
  `stop` or `shutdown` on the dispatcher.

`transformToSHA1` counts bits modulo 2^64, which is the standard's padding for
every message that the standard defines.

## Model

| member | source | states |
|---|---|---|
| Feistel.BackwardUndoesForward | src/utils/xtea.cpp:65-69 | Whatever the mixing functions, running all rounds backwards restores the block that went through them forwards. |
| Feistel.ForwardUndoesBackward | src/utils/xtea.cpp:34-38 | The converse: encryption restores what was decrypted. |
| Xtea.SumAfterAllRounds | src/utils/xtea.cpp:63 | 32 subtractions of the delta from 0 leave the constant with which decryption starts. |
| Xtea.XteaInverts | src/utils/xtea.cpp:22-75 | For every key, encryption and decryption of an 8-byte chunk are inverse to each other in both directions. |
| Xtea.EncryptBuffer | src/utils/xtea.cpp:22-44 | The in-place loop maps exactly the whole blocks the message reaches into, under the key's cipher, and changes nothing else in the buffer. |
| Xtea.DecryptBuffer | src/utils/xtea.cpp:53-75 | The same for the inverse cipher. |
| Xtea.EncryptRounds | src/utils/xtea.cpp:32-38 | The 32 turns of the loop with its running sum are the 32 Feistel rounds of the key. |
| Xtea.DecryptRounds | src/utils/xtea.cpp:63-69 | The loop that counts its sum up undoes those rounds in reverse order. |
| Xtea.MixLaw | src/utils/xtea.cpp:35-37 | What a round mixes in, exclusive-or its key word, is `v` plus the exclusive or of 16 times `v` and a 32nd of `v`, modulo 2^32. |
| XteaAnswers.ZeroChunk | src/utils/xtea.cpp:22-44 | The known answer of XTEA for the key 0 and eight zero bytes, words least byte first. |
| XteaAnswers.LettersChunk | src/utils/xtea.cpp:22-44 | The known answer for the key with the bytes 0 to 15 and the words 41424344 45464748, which tells the key words of all rounds apart. |
| Chunks.MapWindowInverts | src/utils/xtea.cpp:22-75 | Decrypting a window of a buffer that was encrypted restores the whole buffer, and conversely; no byte outside the window changes. |
| Words.LoadsLittleEndian | src/utils/xtea.cpp:30 | A `memcpy` between bytes and a word of 2, 4 or 8 bytes takes the bytes for the digits of the number to the base 256, least first. |
| Words.WrapAround | src/utils/xtea.cpp:32-38 | Additions and subtractions of words are those of integers modulo 2^32. |
| Adler.AdlerChecksum | src/utils/tools.cpp:130-154 | With the modulus deferred to every 5552 bytes the result is the checksum that reduces after every byte (section 8.2 of RFC 1950), and no 32-bit accumulator wraps. |
| Adler.NoWrap | src/utils/tools.cpp:138-147 | Reduced sums that take in up to 5552 bytes more stay below 2^32. |
| Adler.ClosedForm | src/utils/tools.cpp:138-153 | The two sums are 1 plus all bytes and, from 0 on, the sum of the sums before, each modulo 65521. |
| Adler.KnownAnswer | src/utils/tools.cpp:130-154 | The checksum of "Wikipedia" is 11E60398. |
| Adler.OneByteChangeDetected | src/utils/tools.cpp:130-154 | A change of any one byte of up to 24590 changes the checksum. |
| Sha1.SourceFunction | src/utils/tools.cpp:36-54 | The three expressions of the round loops are the functions of section 4.1.1 of FIPS 180-4 in their rounds. |
| Sha1.RotationLaw | src/utils/tools.cpp:17-20 | The shifts rotate: twice, 32 times and 2^30 times the word, with what that loses in the places it leaves free. |
| Sha1.FunctionLaws | src/utils/tools.cpp:36-54 | Bit by bit, the first function chooses, the second is odd parity and the third goes with the majority. |
| Sha1.ConstantsAreRoots | src/utils/tools.cpp:36-54 | The four constants are 2^30 times the square roots of 2, 3, 5 and 10, rounded down. |
| Sha1.Schedule | src/utils/tools.cpp:24-32 | The 80 words are the message schedule of section 6.1.2. |
| Sha1.ProcessBlock | src/utils/tools.cpp:22-61 | The state words become the compression of the block into the previous state. |
| Sha1.AbsorbInput | src/utils/tools.cpp:76-90 | After the byte loop the state, the block and the index stand for the whole input, and the two 32-bit counters for its length in bits modulo 2^64. |
| Sha1.FillZeros | src/utils/tools.cpp:94-105 | The block is filled up with zeros, which are absorbed like input. |
| Sha1.Finish | src/utils/tools.cpp:92-117 | On either padding path the state words end as the digest of the padded message of section 5.1.1. |
| Sha1.LengthCounters | src/utils/tools.cpp:107-115 | The eight bytes taken from the counters are the low 64 bits of the length, most significant byte first. |
| Sha1.HexString | src/utils/tools.cpp:119-127 | 40 characters, of which each eight read as hexadecimal are the next state word. |
| Sha1.TransformToSHA1 | src/utils/tools.cpp:63-128 | For every input, the digits spell the five words of the standard's digest. |
| Sha1Answers.AbcDigest | src/utils/tools.cpp:63-128 | The digest of "abc" in the standard's example. |
| NetworkMessages.NetworkMessage.AddByte | include/network/networkmessage.h:68-75 | A byte that fits is appended to the body; otherwise nothing changes. The cursor stays 8 ahead of the length. |
| NetworkMessages.NetworkMessage.Add16 | include/network/networkmessage.h:77-86 | The same for two bytes, little-endian. |
| NetworkMessages.NetworkMessage.Add32 | include/network/networkmessage.h:77-86 | The same for four bytes. |
| NetworkMessages.NetworkMessage.Add64 | include/network/networkmessage.h:77-86 | The same for eight bytes. |
| NetworkMessages.NetworkMessage.AddString | src/network/networkmessage.cpp:34-45 | A string of at most 8192 bytes that fits is appended behind its length, whole; otherwise nothing changes. |
| NetworkMessages.NetworkMessage.AddBytes | src/network/networkmessage.cpp:53-62 | The same for raw bytes. |
| NetworkMessages.NetworkMessage.AddPaddingBytes | src/network/networkmessage.cpp:64-72 | Padding that fits fills the bytes behind the cursor with 0x33 and grows the length, not the cursor. |
| NetworkMessages.NetworkMessage.GetByte | include/network/networkmessage.h:36-42 | The next unread byte, or 0 and an overrun. |
| NetworkMessages.NetworkMessage.Get16 | include/network/networkmessage.h:48-58 | The next two bytes as a word, or 0 and an overrun that takes nothing. |
| NetworkMessages.NetworkMessage.Get32 | include/network/networkmessage.h:48-58 | The next four bytes as a word, or 0 and an overrun that takes nothing. |
| NetworkMessages.NetworkMessage.Get64 | include/network/networkmessage.h:48-58 | The next eight bytes as a word, or 0 and an overrun that takes nothing. |
| NetworkMessages.NetworkMessage.GetString | src/network/networkmessage.cpp:19-32 | Wherever the cursor is: the next bytes, as many as asked for or as the length in the message says, with the cursor behind them, or none and an overrun. |
| NetworkMessages.NetworkMessage.CanRead | include/network/networkmessage.h:137-143 | Whether so many bytes may be read; if not, the overrun is remembered. |
| Fields.ReadField | include/network/networkmessage.h:48-58 | A read of the field's kind returns the field and leaves the tail if and only if the field's bytes and the tail come next. |
| Fields.WrittenIsRead | include/network/networkmessage.h:48-86 | Any accepted sequence of writes of bytes, words of 2, 4 and 8 bytes, strings and raw bytes, at any place in a body, is returned by the matching reads without overrun, with the rest of the message left. |
| Fields.FieldRoundTrip | include/network/networkmessage.h:133-135 | Written behind any body that can be and followed by anything, a sequence of writes reads back unchanged, complete, without overrun and with what follows left, if and only if no write was refused. |
| Fields.BodiesBounded | include/network/networkmessage.h:133-135 | No sequence of writes makes a body longer than 24567 bytes. |
| Fields.ReachableBodies | include/network/networkmessage.h:68-75 | Every length up to 24567 is the length of a body that can be written. |
| CharacterLists.AddCharacterList | src/network/protocol.cpp:41-59 | The loop appends the opcode, the count, each character's five fields in order, and the premium fields. |
| CharacterLists.AddCharacter | src/network/protocol.cpp:48-52 | One character's five fields are appended in order, each whole or not at all. |
| CharacterLists.ListLayout | src/network/protocol.cpp:41-59 | An accepted list byte by byte: 4, the number of characters modulo 256, for each its three strings behind their lengths, its level and a flag, then 0, whether the premium time is running, and the low 32 bits of its end. |
| CharacterLists.CharacterListRoundTrip | src/network/protocol.cpp:41-59 | Written behind any body that can be, the list is read back by a reader that trusts the count, characters, premium data and what follows, if and only if there are at most 255 characters and no write was refused. |
| CharacterLists.TooManyCharacters | src/network/protocol.cpp:44-46 | 256 nameless characters fit behind any body with 2312 bytes to spare, and are not what is read back. |
| CharacterLists.AcceptedListBack | src/network/protocol.cpp:41-59 | With every write accepted, the characters alone are read back if and only if there are at most 255. |
| CharacterLists.NameTooLong | src/network/networkmessage.cpp:34-39 | A single character with a name of more than 8192 bytes makes the list unreadable. |
| Logins.Authenticate | src/network/protocol.cpp:61-105 | The order of reads, the in-place RSA window and the order of checks give the attempt that the packet's bytes determine; too short a packet or a non-zero first byte is refused before a key is set. |
| Logins.DecryptRsa | src/utils/rsa.cpp:52-60 | The window is replaced by what it decrypts to, and the reader goes on behind its first byte, which has to be 0; fewer than 128 bytes are refused. |
| Logins.LoginRoundTrip | src/network/protocol.cpp:61-105 | The key, address and password a client wrote into the window come out again, wherever the packet lies and whatever the buffer holds behind it; the version and the two empty strings are the only other outcomes. |
| Logins.WindowLayout | src/network/protocol.cpp:79-101 | The window that the two theorems beside this speak of, byte by byte: the four key words, and the address and the password, each behind its length. |
| Logins.ClientSetsKey | src/network/protocol.cpp:79-103 | The key a client wrote is the connection's from then on, also when its version, address or password is turned down. |
| Logins.RefusedKeepsKey | src/network/protocol.cpp:74-84 | An attempt is refused if and only if there is no whole window or its first byte decrypts to something else than 0, and the key is then as before. |
| Logins.ClientLogsIn | src/network/connection.cpp:122-134 | A client's first content, with its checksum, logs in with exactly the key, address and password in its window, whatever the buffer holds behind it. |
| OutputMessages.OutputMessage.AddHeader | include/network/outputmessage.h:38-45 | The header goes in front of what will be sent, and nothing behind it changes. |
| OutputMessages.OutputMessage.WriteMessageLength | include/network/outputmessage.h:28-30 | The length goes in front; on an unsent message this leaves the body behind its inner length. |
| OutputMessages.OutputMessage.AddCryptoHeader | include/network/outputmessage.h:32-35 | The checksum of the output and the length of both go in front of it. |
| OutputMessages.EncryptXtea | src/utils/xtea.cpp:14-45 | Padding to whole blocks if it is let through, then encryption of all blocks the message reaches into. |
| OutputMessages.EncryptInner | src/network/protocol.cpp:159-160 | What stands behind the inner length becomes the payload of the frame. |
| OutputMessages.EncryptMessage | src/network/protocol.cpp:157-162 | What an unsent message sends is the frame of its body, and the three headers use up the 8 reserved bytes exactly. |
| Frames.PaddingRefusedOnce | src/network/networkmessage.cpp:64-72 | 24567 is the one body length for which the padding is refused. |
| Frames.OpenFrame | src/network/connection.cpp:112-126 | The content of a frame with padding is recognised by its checksum, decrypted, and opened to exactly its body. |
| Frames.FrameLayout | src/network/protocol.cpp:157-162 | A frame byte by byte: the length of what follows, the checksum of what follows that, and the cipher text of the body's length, the body and 0x33s up to a whole block, all numbers little-endian. |
| Frames.SizeLimit | src/utils/xtea.cpp:16-20 | Over all bodies: every header is accepted; the padding is let through, and the receiver gets the body back, if and only if it has at most 24566 bytes; otherwise it gets nothing. |
| Frames.WrongChecksum | src/network/connection.cpp:122-126 | A content with a wrong checksum is delivered if and only if it has whole blocks behind its first four bytes and the first two bytes decrypt to an inner length that fits. |
| Frames.WrongChecksumDelivered | src/network/connection.cpp:122-126 | Under every cipher there is a content of twelve bytes with a wrong checksum that is delivered. |
| Frames.StreamDelivers | src/network/connection.cpp:70-148 | The concatenated frames of any messages under one key split, check, decrypt and deliver as the bodies in order, without those of the dropped length. |
| Frames.StreamRoundTrip | src/network/connection.cpp:70-148 | All bodies come back if and only if none has the dropped length. |
| Connections.CheckChecksum | src/network/connection.cpp:112-126 | The cursor ends behind the checksum if and only if it is that of the bytes after it, or 0 when there are none; otherwise it is where it was. |
| Connections.DecryptXtea | src/utils/xtea.cpp:47-84 | In the reused buffer, success and the bytes left to read are those of opening the content alone, so nothing stale is among them. |
| Connections.TakeInner | src/utils/xtea.cpp:77-84 | The inner length becomes the message's, unless it exceeds the decrypted bytes; the reader then has just those bytes. |
| Connections.OpenReceived | src/utils/xtea.cpp:53-84 | Decrypting inside the 24590-byte buffer and taking the inner length opens the content as if it stood alone. |
| Connections.Connection.Close | src/network/connection.cpp:18-29 | Leaves the manager's set each time, records the close once. |
| Connections.Connection.Accept | src/network/connection.cpp:51-68 | Starts the first read, or closes if that fails. |
| Connections.Connection.ParseHeader | src/network/connection.cpp:70-99 | An error, a length of 0 or one from 24574 on closes; any other length starts the read of as many bytes. |
| Connections.Connection.ParsePacket | src/network/connection.cpp:101-148 | The first content authenticates and sets the key that its attempt to log in yields, and closes unless the attempt has credentials; a later one is dispatched under that key as what it opens to, or not at all; a closed connection does neither and reads no more. |
| Connections.Connection.Authenticate | src/network/connection.cpp:112-134 | In the reused buffer, the attempt is that of the content and the 8 bytes behind it, the checksum or its absence taken into account. |
| Sessions.StepKeeps | src/network/connection.cpp:18-148 | Every step of a connection keeps its invariant; a closed one's record never grows, and one out of the manager's set stays out. |
| Sessions.FailureCloses | src/network/connection.cpp:70-148 | A failed read, a length that is 0 or from 24574 on, a read that cannot be started, a timeout and a close all end with the connection closed, out of the set and with the close last in its record; after a failure no read is pending. |
| Sessions.SuccessGoesOn | src/network/connection.cpp:70-148 | Any other step leaves it open with exactly the next read pending, and only a content adds to the record: the authentication if it is the first, else what it opens to. |
| Sessions.EventOfCases | src/network/protocol.cpp:126-132 | A message is dispatched by its first byte, 0 if there is none, with the rest behind it; 6 is a ping. |
| Sessions.EventsInOrder | src/network/connection.cpp:126-130 | Messages are dispatched one for one, in order. |
| Sessions.SessionRuns | src/network/connection.cpp:18-148 | In every interleaving, at every point: at most one pending read, at most one authentication and that before any dispatch, nothing after a close, and no closed connection in the set. |
| Sessions.NothingAfterClose | src/network/connection.cpp:18-29 | Whatever follows a close, nothing more is dispatched and the connection is not registered again. |
| Connections.ConnectionManager.CreateConnection | src/network/connectionmanager.cpp:16-24 | A new connection joins the set with a number above all numbers ever given. |
| Connections.ConnectionManager.ReleaseConnection | src/network/connectionmanager.cpp:26-30 | The connection leaves the set and no other does. |
| Connections.ConnectionManager.OnParseHeader | src/network/connection.cpp:70-99 | The end of a header's read on one of all connections: an error, a refused length or a read that cannot be started leaves it closed, out of the set and without a read, anything else with exactly the content's read pending; no other connection changes state or leaves the set, none joins it, and numbers stay distinct. |
| Connections.ConnectionManager.OnParsePacket | src/network/connection.cpp:101-148 | The same for the end of a content's read, which goes on with a header's. |
| Connections.ConnectionManager.OnAccept | src/network/connection.cpp:51-68 | The same for the server's call of `accept`: the first read is pending, or the connection is closed and out of the set. |
| Connections.ConnectionManager.OnClose | src/network/connection.cpp:18-29 | The same for a timeout or a handler's close: the connection is closed, not in the set, and the close is last in its record. |
| Connections.ConnectionManager.CloseAll | src/network/connectionmanager.cpp:32-45 | The set is empty and every connection is out of it, none otherwise changed. |
| Connections.ConnectionManager.GetProtocolById | src/network/connectionmanager.cpp:47-54 | The protocol of the one registered connection with that number, or null if there is none or it has no protocol yet. |
| Connections.ConnectionManager.ClosedIsGone | src/network/connectionmanager.cpp:26-30 | No closed connection is in the set. |
| Wire.ReceiveStream | src/network/connection.cpp:70-148 | The receive loop on any byte stream records exactly the deliveries of the stream, in order, whatever was in the buffer, and closes exactly when a length is refused. |
| Wire.WireDelivers | src/network/connection.cpp:70-148 | For every key, what is sent is delivered: the bodies in order if and only if none has the dropped length, and the stream never closes the connection. |
| Wire.NothingRefused | src/network/connection.cpp:80-84 | No stream of sent messages contains a length that the receiver refuses. |
| Wire.LongestIsLost | src/network/networkmessage.cpp:64-72 | A message of the dropped length is sent and lost without an error. |
| Conversations.SendMessages | src/network/protocol.cpp:157-162 | Messages that share nothing, encrypted one after the other, make the stream of the frames of their bodies. |
| Conversations.Exchange | src/network/connection.cpp:70-148 | What a sender encrypts under a connection's key, that connection records: exactly the bodies that are not dropped, in order. |
| Conversations.Converse | src/network/connection.cpp:101-148 | From the accepted connection on: a client logs in with a key of its choice and sends any messages under it; the connection has that key, one authentication, and then exactly the messages, in order; those written as opcodes and fields read back as the same opcodes and fields. |
| Conversations.PacketRead | src/network/protocol.cpp:126-132 | A body written as an opcode, other than that of the ping, and fields is dispatched with that opcode, and its rest reads back as the fields with nothing left. |
| JsonValues.DecimalRoundTrip | lib/json.lua:106-112 | The decimal text of an integer below 10^14 in magnitude reads back as that integer. |
| JsonValues.DigitsByPlace | lib/json.lua:106-112 | Digits stand for ones, tens, hundreds by their place. |
| JsonValues.DigitIs | lib/json.lua:106-112 | The ten digits, read and printed. |
| JsonParser.Parse | lib/json.lua:356-363 | Parsing always ends, and a value ends strictly behind where it began and inside the text. |
| JsonParser.NextChar | lib/json.lua:160-167 | The first position from which on the character is in the set, or is not, or the end. |
| JsonStrings.HalvesRead | lib/json.lua:222-230 | Wherever in a string two escapes stand that are the UTF-16 halves of a code point, reading goes on 12 characters later with that code point's UTF-8. |
| JsonStrings.HalvesString | lib/json.lua:208-245 | A string of two such escapes is read as the UTF-8 of the code point and ends 14 characters behind its start. |
| JsonStrings.Halves | lib/json.lua:197-206 | The two halves are the only high and low surrogate that combine to the code point. |
| JsonStrings.PairStep | lib/json.lua:222-230 | A high surrogate and any other escape behind it are read together, as the number they combine to or as a fault. |
| JsonStrings.SingleStep | lib/json.lua:222-230 | Any other escape with four digits is read on its own: reading goes on 6 characters later with the UTF-8 of its number. |
| JsonStrings.Grinning | lib/json.lua:197-206 | The escapes d83d and de00 between quotes are read as F0 9F 98 80. |
| JsonStrings.StringGrammar | lib/json.lua:208-245 | A string is read if and only if it is spelled by plain characters, short escapes and escapes with four digits and closed by a quote, no pair lying beyond U+10FFFF; the result is what these pieces say, and reading ends behind the quote. |
| JsonStrings.StringRefused | lib/json.lua:208-245 | A string that is refused is spelled by pieces up to where the error is placed: a control character, a backslash without an escape behind it, a pair beyond U+10FFFF, or, with the error at its start, the end of the text. |
| JsonStrings.PrintedCharacter | lib/json.lua:33-51 | A character is escaped if and only if it may not stand for itself, by its short escape if there is one other than that of the slash, and otherwise by its number in four digits with small letters. |
| JsonGrammar.JsonGrammar | lib/json.lua:365-375 | `json.decode` accepts a text if and only if it is white space, a text of the grammar and white space, and returns what that text means: list elements by their places, object fields by their last value, `null` as absence. |
| JsonGrammar.TrailingComma | lib/json.lua:266-294 | The text [true,] is decoded as the list of one element. |
| JsonGrammar.NodeRead | lib/json.lua:356-363 | A text of the grammar, anywhere and before a delimiter if it is a word, is read as what it means, ending right behind it. |
| JsonGrammar.NodeFound | lib/json.lua:356-363 | Whatever is read is a text of the grammar with that meaning. |
| JsonRoundTrip.StringBack | lib/json.lua:102-104 | Every string, control characters included, survives escaping and parsing, wherever it stands. |
| JsonRoundTrip.TreeBack | lib/json.lua:59-133 | A printed tree, anywhere in a text and before a delimiter, parses to the value it denotes, ending right behind it. |
| JsonRoundTrip.JsonRoundTrips | lib/json.lua:131-133 | For every tree of booleans, small integers, strings, arrays and objects in any key order, decoding the printed text gives its value. |
| JsonText.ArrayDenotes | lib/json.lua:83-85 | The value of a tree of an array is the table with its elements at 1, 2, 3 and so on, and nothing else. |
| JsonText.PrintedArray | lib/json.lua:83-87 | Elements between brackets with a comma between each two, and no white space. |
| JsonText.PrintedObject | lib/json.lua:89-99 | The same for members between braces, each a key, a colon and a value. |
| JsonText.PrintedPlain | lib/json.lua:106-120 | The texts of nil, the booleans and two numbers. |
| JsonGraph.UnfoldsOnce | lib/json.lua:59-100 | A table graph has at most one tree as its unfolding. |
| JsonGraph.ArrayBorder | lib/json.lua:79-85 | On a well-formed array the length is the number of keys, so neither check turns it down. |
| JsonGraph.SparseCheck | lib/json.lua:72-85 | A table that passes the check is an array if and only if its keys are integers from 1 to its length, and if and only if as many values are encoded as it has; otherwise fewer are. |
| JsonCycles.SequenceAt | lib/json.lua:83-85 | What `ipairs` comes to as number `k` is the value under the key `k`, as long as none before is missing. |
| JsonGraph.SequenceStops | lib/json.lua:83-85 | It ends in front of the first key that is missing. |
| JsonCycles.EncodesOnPath | lib/json.lua:59-100 | In the middle of an encoding, with any tables on the path, a value that has an unfolding and reaches well-formed tables only is printed as that tree if and only if no table that it reaches is on the path. |
| JsonCycles.ErrorLoops | lib/json.lua:63-66 | The encoder's only error on well-formed tables is the circular reference, and it comes with a walk that meets itself. |
| JsonCycles.CyclicHasNoTree | lib/json.lua:63-66 | Nothing from which a cycle can be reached has an unfolding. |
| JsonCycles.EncodesUnlessCyclic | lib/json.lua:59-133 | When every table that a value reaches is well-formed, the circular-reference error comes if and only if a cycle is among them; otherwise, shared tables included, the unfolded tree is printed. |
| JsonCycles.EncodeDecode | lib/json.lua:59-133 | Without a cycle among the well-formed tables it reaches, decoding what was encoded gives the value, for every order of `pairs`. |
| JsonCycles.SparseTablePasses | lib/json.lua:72-85 | Such a table is one with the keys 0, 1 and 3: it passes and loses values. |
| JsonRefusals.RefusedExactly | lib/json.lua:59-129 | On any tables whatever: a value is refused if and only if some way of the encoder leads from it to a value without a text, a table already on that way, or a table whose keys are not all of one kind or whose length is not their number. |
| JsonRefusals.RefusalHasFault | lib/json.lua:59-129 | The error that is raised is that of such a fault. |
| JsonRefusals.TableOutcome | lib/json.lua:70-99 | Which check of a table comes to which error, by its kind, its keys and its length. |
| JsonCodec.Encode | lib/json.lua:122-129 | The recursive encoder with its mutable path set terminates, returns what the specification says, and leaves the set as it found it unless it raises. |
| JsonCodec.EncodeTableLoop | lib/json.lua:59-100 | The same for the loops over one table. |
| JsonCodec.JsonEncode | lib/json.lua:131-133 | Encoding starts with an empty path set. |
| JsonCodec.NextCharLoop | lib/json.lua:160-167 | The search loop stops where the specification says. |
| JsonCodec.ParseStringLoop | lib/json.lua:208-245 | The loop with its two indices returns the string and the position of the specification, or its error. |
| JsonCodec.ParseArrayLoop | lib/json.lua:266-294 | The same for arrays. |
| JsonCodec.ParseObjectLoop | lib/json.lua:296-334 | The same for objects. |
| JsonCodec.ParseText | lib/json.lua:356-363 | The dispatch on the first character parses as the specification does. |
| JsonCodec.JsonDecode | lib/json.lua:365-375 | The loops together decode as the specification does, trailing text included. |
| Utf8.Utf8RoundTrip | lib/json.lua:182-195 | Every number up to U+10FFFF is put into octets and any other refused; section 3 of RFC 3629 reads the octets back as the number if it is no surrogate, and as no character if it is. |
| Utf8.HexDigits | lib/json.lua:197-199 | The sixteen digits in both cases, and no other characters. |
| Utf8.FourHexDigits | lib/json.lua:197-199 | Four digits stand for a number to the base 16, the first the highest. |
| Utf8.SurrogatePair | lib/json.lua:197-206 | A pair of escapes whose first is the high half of a code point becomes that code point's UTF-8 if and only if the second is its low half. |
| Utf8.LowSurrogatesPair | lib/json.lua:224-226 | An accepted pair becomes the UTF-8 of the code point whose halves it is if and only if its second half is a low surrogate. |
| Utf8.SingleEscape | lib/json.lua:197-206 | A single escape is always accepted, and becomes the UTF-8 of the number it names if and only if that is no surrogate. |
| Utf8.LoneSurrogate | lib/json.lua:204 | The escape D800 becomes the octets ED A0 80, which are not UTF-8. |
| Utf8.UnpairedSurrogate | lib/json.lua:224-226 | A high surrogate before an ordinary escape is accepted and becomes another character. |
| Utf8.PairOutcome | lib/json.lua:197-206 | An accepted pair is refused if and only if its second half is too large for its first, and otherwise becomes UTF-8 if and only if the number it combines to is no surrogate. |
| Utf8.OutOfRangePair | lib/json.lua:224-226 | The highest pair is accepted by the pattern and then refused. |
| Utf8.PairToSurrogate | lib/json.lua:202 | An accepted pair that combines to the surrogate D800, whose octets are not UTF-8. |
| Tasks.Dispatcher.AddTask | src/core/tasks.cpp:50-69 | While the thread runs the task is pushed, with a signal if and only if the list was empty; otherwise it is dropped without one. |
| Tasks.Dispatcher.Shutdown | src/core/tasks.cpp:71-82 | The task that stops the thread and never expires is pushed, whatever the state. |
| Tasks.Dispatcher.RunBatch | src/core/tasks.cpp:38-46 | Every task taken is run if and only if it has no expiration or the clock at its turn is not behind it, in order; the counter grows by those run, and the thread is stopped if one of those was the shutdown task. |
| Tasks.Expiry | include/core/tasks.h:39-44 | A task is expired after its time and never before, once expired for good, and without a time never. |
| Tasks.RanCounts | src/core/tasks.cpp:39-41 | The counter grows by the number of tasks run. |
| DispatcherRuns.WakeupKept | src/core/tasks.cpp:28-37 | A dispatcher that waits without a notification while there are tasks is owed one by some client: no step of any thread breaks this. |
| DispatcherRuns.OrderKept | src/core/tasks.cpp:28-69 | The tasks pushed are, in that order, those handled, those in the batch and those in the list. |
| DispatcherRuns.OnePlace | src/core/tasks.cpp:22-69 | In every reachable state a task that was made is in exactly one place: a client's hands, rejected, handled, in the batch or in the list. |
| DispatcherRuns.RunsSafe | src/core/tasks.cpp:22-82 | All of this, mutual exclusion, the cycle counter and the reasons to reject and to end hold in every state of every interleaving of any number of clients. |
| DispatcherRuns.ShutdownDrains | src/core/tasks.cpp:71-82 | When the thread's loop has ended, a shutdown task was run, and of everything pushed before it exactly those were run that had no expiration or were come to by then. |
| DispatcherProgress.SomeoneCanProceed | src/core/tasks.cpp:22-82 | No deadlock: some thread at work can go on unless the dispatcher has ended or waits with an empty list. |
| DispatcherProgress.AddTaskAlone | src/core/tasks.cpp:50-69 | An uninterrupted call of `addTask` puts its task last in the list and notifies a waiting dispatcher if and only if the list was empty, or rejects it when the thread does not run. |
| DispatcherProgress.SpuriousWakeup | src/core/tasks.cpp:28-37 | A wakeup for no reason with nothing in the list brings the dispatcher back to its check with nothing changed. |
| DispatcherProgress.TakenInTime | src/core/tasks.cpp:28-37 | Whatever clients do meanwhile, new calls, stops and spurious wakeups included, what is in the list is taken as part of one batch within a bounded number of the dispatcher's own steps, unless it ends first. |
| DispatcherProgress.OthersBounded | src/core/tasks.cpp:50-82 | In any run the other threads take at most the steps they had left, five for each new call, and the stops. |
| DispatcherProgress.TakenInSteps | src/core/tasks.cpp:28-37 | So the list is taken within a bounded number of steps of all threads, counted from the calls and stops in the run. |
| DispatcherProgress.ShutdownEnds | src/core/tasks.cpp:71-82 | With a shutdown task pushed, the dispatcher ends after as many of its own steps as it has tasks, plus the tasks accepted meanwhile, plus eight, plus six for each stop, in any run whose stops are harmless. |
| DispatcherProgress.StopMatters | include/core/threadholder.h:35-37 | With no other call of `shutdown` under way, a stop leaves the dispatcher ended or bound to end if and only if it does not fall between the run of the last shutdown task and the next check; otherwise nothing is left that could end it. |
| DispatcherProgress.NeverEnds | src/core/tasks.cpp:28-48 | From such a state no steps end the dispatcher until `shutdown` is called again. |
| DispatcherRuns.BatchAsAWhole | src/core/tasks.cpp:40-47 | The single steps of a batch add up to what `Tasks.Dispatcher.RunBatch` does. |
| DispatcherRuns.AddTaskStep | src/core/tasks.cpp:54-63 | The critical section of the object is the step of the client that holds the mutex, signal included. |
| DispatcherRuns.ShutdownStep | src/core/tasks.cpp:78-79 | The same for `shutdown`. |
| DispatcherRuns.StopStep | include/core/threadholder.h:35-37 | The same for `stop`. |
| DispatcherRuns.BatchStep | src/core/tasks.cpp:37-47 | The object's batch is the step of the swap and one step for each task. |
| DispatcherProgress.StopUndoesShutdown | include/core/threadholder.h:35-37 | A whole run from the start in which the shutdown task was run and then `stop` was called: the dispatcher waits, no thread can go on, and nothing but another `shutdown` would end it. |
| Registry.ListedKeeps | src/core/module.cpp:168-171 | Listing a module keeps lists free of repetition and the order of all other modules. |
| Registry.UnlistedKeeps | src/core/module.cpp:219-223 | So does taking it off, which leaves it nowhere in that event's list. |
| Registry.ListedIs | src/core/module.cpp:168-171 | Listing adds a module at the end if it is not there, and changes no other event. |
| Registry.WithoutJoined | src/core/module.cpp:214-217 | Removing a callback is done to each entry alone, so the others keep their order. |
| Registry.WithoutCounts | src/core/module.cpp:214-217 | No copy of the callback stays, and every other as often as before. |
| Registry.WithoutFirstIs | src/core/modulemanager.cpp:118-127 | Forgetting takes away the first mention and nothing else. |
| Registry.DroppedIs | src/core/module.cpp:206-236 | Dropping a callback leaves the other callbacks of the event and every other event, and the event's entry if and only if one is left. |
| Registry.DroppedIdIs | src/core/module.cpp:238-268 | The same for an identifier. |
| Modules.Module.Connect | src/core/module.cpp:162-190 | The callback comes last among the module's own, or the identifier is refused if taken; other events and identifiers stay; the module is in the manager's list, once, and every module's index still agrees with its callbacks. |
| Modules.Module.ConnectOnce | src/core/module.cpp:192-204 | The same, and only a success is remembered as to be run once. |
| Modules.Module.Disconnect | src/core/module.cpp:206-236 | All copies of the callback go, every other callback stays as often and in the same order, and so does every other event; the module leaves the list and a reference is given back if and only if none is left; index and callbacks agree for every module. |
| Modules.Module.DisconnectIdentified | src/core/module.cpp:238-268 | The identifier goes and its reference is given back once; every other identifier and event stays; the module leaves the list if and only if no identifier is left; index and callbacks agree. |
| Modules.Module.FreeConnections | src/core/module.cpp:270-315 | No callback of the module is left, it is on no list, the others keep their places and order, and of the references of identified callbacks just its own were given back, each exactly once. |
| Modules.ModuleManager.Emit | include/core/modulemanager.h:28-56 | Where C++ defines the loops, the invocations are, in order, those of the listed modules' callbacks; in the identified branch, those that the comparison with the previous reference lets through, and what was connected once and invoked is disconnected and its reference given back, and nothing else. |
| Modules.DisconnectThenEmit | src/core/module.cpp:206-236 | The emission after a disconnection runs, for that module, what the one before ran without that callback, and for every other module the same. |
| Modules.ConnectThenEmit | src/core/module.cpp:162-190 | The emission after a connection runs the new callback last of its module's, everything else as before. |
| Modules.FreeThenEmit | src/core/module.cpp:270-315 | The emission after the release of a module runs nothing of it, and the others as before. |
| Modules.ConnectOnceThenEmit | src/core/module.cpp:192-204 | Once means once: what `connectOnce` has connected under an identifier, with a reference of its own, is run by the next emission and by none after that, and its reference is given back once. |
| Modules.Module.GetEventCallback | src/core/module.cpp:368-375 | The callbacks for an event, none if it has no entry. |
| Modules.ModuleManager.LuaEmit | include/core/modulemanager.h:59-110 | The same invocations and disconnections; the result is the least of 0 and all integers returned, and the table's reference is given back once. |
| Modules.Module.CheckOnce | src/core/modulemanager.cpp:118-127 | The first mention of the callback is forgotten and the callback disconnected; without one nothing happens. |
| Modules.Module.CheckOnceIdentified | src/core/modulemanager.cpp:129-140 | The same for an identifier of the event. |
| Modules.PlainIsFullScan | include/core/modulemanager.h:33-39 | Going through the index, every module made gets exactly its own callbacks for the event run, in the order in which they were connected. |
| Modules.PlainInOrder | include/core/modulemanager.h:33-39 | Modules are gone through in the order of the list, each with its callbacks in their order. |
| Modules.MatchesInOrder | include/core/modulemanager.h:46-50 | The same for the modules under an identifier. |
| Modules.MatchesAreFullScan | include/core/modulemanager.h:46-50 | The index leads to every module that has the identifier, once, and to no other. |
| Modules.SkipsNothing | include/core/modulemanager.h:44-51 | The comparison drops no invocation if and only if no reference equals the one before it and the first is not 0. |
| Modules.SkipsExactly | include/core/modulemanager.h:44-51 | An invocation is dropped if and only if its reference is that of the one before it, run or not, or 0 for the first. |
| Modules.LostInvocation | include/core/modulemanager.h:42-55 | With two modules under one identifier and one reference, only the first is invoked; with the reference 0, neither. |
| Modules.DistinctRefsDeliver | include/core/modulemanager.h:42-55 | With distinct non-zero references each module that has the identifier is invoked exactly once. |
| Answers.Login.RequestCentralAnswer | lib/login.lua:6-16 | A new number is given out; its callback stays unless publishing fails, and stays also when encoding raises. |
| Answers.Login.OnRedisMessage | modules/login/request.lua:8-25 | An answer with an entry runs that callback, which may make requests, and then clears that entry unless an error was raised; any other message changes nothing. |
| Answers.ReceiveExactly | modules/login/request.lua:8-15 | A message is an answer if and only if it is a table with a true `__answer` and a whole number as `__answerId`; the rest of the table is its data. |
| Answers.OtherMessages | modules/login/request.lua:8-11 | What is no text of a table is no answer. |
| Answers.MessageKeeps | modules/login/request.lua:13-24 | Whatever the message and the callback do, entries and runs belong to their own requests, and what was run without an error has no entry. |
| Answers.RunsKeep | lib/login.lua:6-16 | That holds after every sequence of requests and messages, and there are entries for exactly the requests whose publishing did not fail and whose callbacks were not run without an error. |
| Answers.AnsweredOnce | lib/login.lua:6-16 | In every run, a callback is run for its own request only, never for one whose publishing failed, and again only after it raised an error. |
| Answers.AnswerRuns | modules/login/request.lua:13-24 | In every run, a message runs a callback if and only if it names a request that was not one whose publishing failed and whose callback has not been run without an error, whether or not the request ever left. |
| Answers.UnpublishedAnswered | lib/login.lua:11-15 | The callback of a request that could not be encoded, and so was not published, is run by the first answer with its number. |
| Answers.DuplicateAnswer | modules/login/request.lua:20-23 | The same answer a second time runs the callback again if and only if the first run raised an error. |
| Answers.ClearsItsOwn | modules/login/request.lua:23 | Clearing leaves every other entry, those of requests the callback made included. |
| Answers.AnswerReaches | modules/login/request.lua:8-24 | An answer printed by the same codec, with its fields in any order, reaches the callback it names with the rest of its fields. |

## Left out

- RSA itself, its key file, the accounts in MySQL, the message of the day and the session key: the decrypted window is an arbitrary function of the encrypted one, and whether the account is found is a parameter of `Connections.Connection.ParsePacket`, as is whether a handler closes the connection.
- Redis sockets, `select`, Boost.Asio, signals, the configuration and the logger: their outcomes are steps or parameters.
- The Lua virtual machine: a handler is one atomic step, a callback a number, a sandbox environment is not modelled.
- Floating point: `addDouble`, and JSON numbers other than integers below 10^14, which are carried as text.
- The texts of errors, and the line and column in `decode_error`: an error carries its position only, and outside strings nothing is claimed of that position. Stack depth of the recursive codec.
- `getPreviousByte`, `decodeHeader`, `addMOTD`, `sendError`, `sendLoadingMessage` and the write timer: no state of their own to prove anything about.
- `OutputMessage` as a subclass of `NetworkMessage`: an output message owns its network message. Encrypting one message twice, which the header assertion forbids.
- The locks of connections and of the manager: their handlers are atomic steps. 64-bit wrap-around of connection numbers, of the dispatcher's counter and of message identifiers.
- `removeAllConnectionsById`, and emission in which a handler connected by `connectOnce` takes its module off the list, or a callback off the vector, that is being gone through: C++ leaves that undefined.
- A module that is deleted because loading it failed after it had connected: the index then keeps a dangling pointer. Modules here live as long as their manager.
- How many references of anonymous callbacks are given back: `disconnect` gives one back with the last callback only, so no count is conserved.
- Tasks.Dispatcher.RunBatch: what other threads do while a batch runs is in `DispatcherRuns`, not in this method.
- Modules.ModuleManager.Emit: `emit` and `emitNoRet` differ in what they do with results, which are not modelled.
- Answers.Login.OnRedisMessage: a callback that itself leads to the handling of another message is not modelled.
