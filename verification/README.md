# TNT, modelled in Dafny

TNT is a chat server that people reach with an SSH client.  This project models
the parts of it that are hard to get right and proves what they promise:

- **Client lifetime** (`ClientLifetime`, `ChatRoom`): a client is shared by its
  own session thread and by any number of mention and whisper deliveries.  The
  interleavings of their locked steps form a state machine; in every reachable
  state the reference count is the number of outstanding holders, nobody touches
  a freed client, each client is freed once, and none can be leaked.
- **Connection accounting** (`RateLimit`, `RateLimitTable`, `RateHistory`,
  `RateLimitOverflow`): a global total and a table of 256 addresses, updated by the
  accept loop, failing bootstraps and ending sessions in any order; what the rate limit
  and the blocks mean for an address while others come and go, and exactly when one is
  admitted, told from its own past.
- **Output** (`ClientOutput`): a bounded queue per client, flushed against the
  SSH window (section 5.2 of RFC 4254), with partial and failing writes: nothing is
  lost or repeated, and while the window is open everything queued is sent.
- **Text** (`Utf8`, `TextCut`, `InputBuffer`, `JsonText`, `JsonGrammar`): the
  UTF-8 codec (sections 3 and 4 of RFC 3629), width-bounded cutting of plain and
  ANSI text (section 5.4 of ECMA-48), the streaming paste automaton, and the JSON
  printer, parser and skipper (section 7 of RFC 8259).
- **Modules** (`ModuleProtocol`, `ModuleRuntime`, `ModuleRuns`): event lines built
  on the JSON text, the supervisor with its linked queue and its disable latch, and
  all interleavings of posting sessions, the worker and the messages that modules
  publish to the room.
- **The message log** (`MessageLog`, `MessageFile`, `MessageDump`,
  `MessageLogTool`, `Restart`): records, saving, the chunked backward scan, the
  windows of search and dump, check and recover, and when a restart restores the room.
- **Small algorithms** (`CommandCatalog`, `HistoryView`): the edit distance behind
  command suggestions, and the history slice that fits the screen.

`Bytes` and `Common` hold C strings and the buffer builder every printer uses.

What the program changes in place is a class or an array here, and each such
method is proved against a function of the old state; the properties are then
lemmas about those functions.  Threads are modelled by interleaving the steps
that the code performs atomically or under one lock.

## How to read the model

- A byte is an integer from 0 to 255; bit masks are written as arithmetic on
  ranges.  A C string is its content, without NUL; an edited one is an array whose
  text ends at its first zero.  `requires NoNul(...)` says that a parameter is
  such a string.  A log file is any sequence of bytes.
- The results of libssh, of the allocator and of module processes are parameters
  or arbitrary values, so the theorems hold for all of them.
- A timestamp codec is a parameter of every log operation.  `MessageLog.Lawful`
  says what is relied on: inside the replay window its text has no separator, at
  most 46 bytes, and reads back.  `MessageLog.LawfulCodecExists` shows that this
  can be met.

## Where the code does not do what one may expect

- A record whose time is exactly -1 (one second before 1970) is written but never
  read back, because -1 is also the parser's failure value:
  `MessageLog.RecordReadsBackIff` has that condition, `MessageLog.MinusOneExample`
  an input.  It matters only to a clock before 1980; later ones have that time
  outside the replay window.
- Behind a torn last line the torn bytes become part of the timestamp of the next
  saved message, which is lost if they hold a separator or a NUL or make the line too
  long; but where a NUL hides that the line is oversized a reader starts afresh every
  2047 bytes, and the message may come through with all or the end of its timestamp.
  `MessageLog.TornStamp` is the text its time is read from, the message survives if
  and only if that text reads as its own time (`MessageLog.SurvivesTornIff`), and no
  other message is affected (`MessageLog.TornLineTakesOne`), whatever the torn bytes.
- A NUL byte hides from a reader that a line is oversized, and its remainder is read
  as a line of its own.  Readers get exactly the lines, each up to its first NUL, if
  and only if no line of 2048 bytes or more has a NUL among its first 2047:
  `MessageFile.ReadsAreTextsIff`.
- A restart need not restore the room: a post is saved and then broadcast, a leave
  the other way round, and threads interleave.  For a log that the check command finds
  clean, restarts always give the new room the history of the old one if and only if
  at most one thread writes: `Restart.RestoresIffOneThread`.
- With more than 256 configured connections a new address can evict one that has
  connections, and the accounting is exact in every run if and only if at most 256
  are allowed: `RateLimitOverflow.ExactIff`, with the run of 257 in
  `RateLimitOverflow.OverflowRun`.
- A block or a full rate window is forgotten when the address's slot goes to another
  address: an unknown one comes, no slot is free, and this slot is the oldest without
  connections, or the oldest of all if every slot has some.  `RateLimitTable.SlotStep`
  says exactly which operation takes a slot away, and `RateLimitTable.BlockForgotten`
  is a history from the empty table in which a blocked address is admitted.
- ANSI truncation can exceed its width when it puts its reset behind an incomplete
  escape, which then swallows a part of the reset.  `TextCut.WidthExceedsIff` says
  exactly when, `TextCut.UnterminatedEscapeBreaksWidth` gives an input for each way.
- Two sessions that post at the same time can have their events delivered to the
  modules in the other order than their messages stand in the room:
  `ModuleRuns.OrderCanSwap`.  Where there are modules, events are sure to come in the
  order of the room if and only if at most one session posts:
  `ModuleRuns.RoomOrderIffOnePoster`.
- In a message area of one row the latest view shows a date divider and no
  message; from two rows on it always shows the newest: `HistoryView.ShowLatest`.

## Model

| member | source | states |
|---|---|---|
| `ClientLifetime.StepKeeps` | src/client.c:206-265 | every step of any thread keeps: count equals holders, room members are alive, deliveries hold only live clients |
| `ClientLifetime.LifetimeSafety` | src/client.c:206-265 | in every interleaving the count equals the session's references plus the holding deliveries, a client in the room is alive, it is freed once, and it is dying or freed exactly when its session has ended and nobody holds it |
| `ClientLifetime.EveryClientCanBeFreed` | src/client.c:206-265 | from every state that any interleaving reaches, the threads can go on until no delivery runs, the room is empty and every client ever created has been freed exactly once |
| `ClientLifetime.NoUseAfterFree` | src/input.c:153-185 | in every interleaving no step touches a client that is freed or being freed |
| `ClientLifetime.TouchesOnlyLive` | src/commands.c:95-124 | under the invariant every client a step touches is alive |
| `ClientLifetime.TakeKeeps` | src/input.c:167-176 | taking a reference under the room lock keeps the count exact |
| `ClientLifetime.JoinKeeps` | src/chat_room.c:47-59 | joining under the write lock keeps the invariant |
| `ClientLifetime.LeaveKeeps` | src/input.c:1252-1262 | leaving, before the session releases its references, keeps the invariant |
| `ClientLifetime.ReleaseKeeps` | src/client.c:213-246 | a delivery's release keeps the invariant, whether or not it is the last |
| `ChatRoom.WithoutFirst` | src/chat_room.c:65-73 | the lifetime model's removal is: the first occurrence goes, the others keep their order |
| `ChatRoom.Room.AddClient` | src/chat_room.c:47-59 | appends the client, unless the room is full |
| `ChatRoom.Room.RemoveClient` | src/chat_room.c:62-77 | the search and shift loops perform exactly the removal of the lifetime model |
| `ChatRoom.Room.Broadcast` | src/chat_room.c:80-98 | the history becomes the last hundred of the old one and the message |
| `ChatRoom.HistoryIsLast` | src/chat_room.c:80-98 | over any run of broadcasts the history is the last hundred messages |
| `RateLimit.Limiter.GetEntry` | src/ratelimit.c:48-110 | finds the first slot of the address, else resets the first free one, else the oldest without connections, else the oldest, ties going to the first |
| `RateLimit.Limiter.FindOldest` | src/ratelimit.c:72-98 | the two search loops choose the oldest slot without connections, or the oldest of all when there is none |
| `RateLimit.VictimIsFirstOldest` | src/ratelimit.c:72-98 | the slot to go has the oldest window, among those without connections if there are any, and is the first of equals |
| `RateLimit.Limiter.CheckIp` | src/ratelimit.c:112-154 | finds the entry and applies the admission decision to it alone |
| `RateLimit.Limiter.CheckEntry` | src/ratelimit.c:118-152 | the field updates in order amount to the admission decision, and no other slot changes |
| `RateLimit.Limiter.ReleaseIp` | src/ratelimit.c:176-187 | decrements the count of the address's entry, never below zero; ignores the empty address |
| `RateLimit.Limiter.RecordAuthFailure` | src/ratelimit.c:156-174 | counts the failure and blocks from the fifth on, if limiting is enabled |
| `RateLimit.Limiter.IncrementTotal` | src/ratelimit.c:189-200 | increments and admits exactly when the total is below the maximum |
| `RateLimit.Limiter.DecrementTotal` | src/ratelimit.c:202-208 | decrements, never below zero |
| `RateLimit.AdmitIff` | src/ratelimit.c:118-152 | admits exactly an address below its concurrent limit that is not blocked and has rate left in the window |
| `RateLimitTable.SlotStep` | src/ratelimit.c:48-110 | any operation for any address takes a slot away from its address if and only if it looks up an unknown address, no slot is free and this slot is the one to go; otherwise it changes the slot only if it is for its address |
| `RateLimitTable.KeepsSlotIff` | src/ratelimit.c:70-109 | over any history of checks, failures and releases of any addresses, an address keeps its slot if and only if no operation evicts it |
| `RateLimitTable.HistoryOfSlot` | src/ratelimit.c:48-187 | while an address keeps its slot, its admissions depend on its own operations alone |
| `RateLimitTable.RateBound` | src/ratelimit.c:135-148 | while an address keeps its slot, no more of its checks within the window are admitted than the rate leaves, whatever other addresses do |
| `RateLimitTable.EachWindow` | src/ratelimit.c:135-148 | the same for histories that go on beyond the window |
| `RateLimitTable.AnySixtySeconds` | src/ratelimit.c:135-148 | while an address keeps its slot and its clock does not run backwards, any 60 seconds admit at most twice the rate |
| `RateLimitTable.BlockRefuses` | src/ratelimit.c:124-133 | while a blocked address keeps its slot, none of its checks before the end of the block is admitted, whatever other addresses do |
| `RateLimitTable.TooManyBlocks` | src/ratelimit.c:141-147 | one check too many is refused, and so is every check of that address in the next 300 seconds while it keeps its slot |
| `RateLimitTable.FifthFailureBlocks` | src/ratelimit.c:166-171 | after the fifth authentication failure every check of that address in the next 300 seconds is refused while it keeps its slot |
| `RateLimitTable.EvictionForgets` | src/ratelimit.c:99-109 | after an eviction the address is unknown and its next check is decided as its first would be, whatever block or count it had |
| `RateLimitTable.BlockForgotten` | src/ratelimit.c:70-109 | a history from the empty table: an address fails five times and is blocked until 300, 255 others come and go, a check of another at 10 takes its slot, and its own check at 11 is admitted |
| `RateHistory.AdmittedIff` | src/ratelimit.c:112-174 | over any history of the table: every check of an address, from the visit that gave it its slot and while it keeps the slot, is admitted if and only if its own past says so: fewer live connections than the limit, no block started less than 300 seconds ago and not lifted since, and fewer counted checks in the open 60-second window than the rate; a block is started by the fifth or a later failure since the last one was lifted, or by a check beyond the rate |
| `RateHistory.VisitRemembers` | src/ratelimit.c:112-187 | each check, failure or release keeps the flags and counters of the slot equal to what counting over the past gives, and decides a check as that says |
| `RateHistory.UntroubledIsAdmitted` | src/ratelimit.c:112-174 | whatever other addresses do, an address with fewer than five failures and with no 60 seconds of more checks than the rate has every check admitted that is below its concurrent limit |
| `RateLimit.EvictsActiveIff` | src/ratelimit.c:82-97 | a slot with connections is evicted exactly when the address is new, no slot is free and all have connections |
| `RateLimit.SomeSlotInactive` | src/ssh_server.c:249-265 | with at most 256 connections allowed, an unchecked one always leaves a slot without connections (pigeonhole over the table) |
| `RateLimit.CheckKeepsIff` | src/ratelimit.c:112-154 | a check keeps all counts exact if and only if its address is known or some slot has no connections |
| `RateLimit.StepKeeps` | src/ssh_server.c:249-285 | every accounting step of any thread keeps the total and all per-address counts exact |
| `RateLimit.RunKeeps` | src/bootstrap.c:191-211 | so does every interleaving of accepts, failed bootstraps and session ends |
| `RateLimit.AccountingIsExact` | src/input.c:1264-1269 | at every point of every such run the total is the number of counted connections within the maximum, each address has at most one slot, its count is its admitted connections, within its limit |
| `RateLimit.NeverEvictsActive` | src/ratelimit.c:70-97 | in such a run no slot with connections is ever evicted |
| `RateLimitOverflow.OverflowRun` | src/ratelimit.c:84-98 | with more than 256 connections allowed, a run of 257 accepts and checks from different addresses that evicts an address with a connection |
| `RateLimitOverflow.ExactIff` | src/ratelimit.c:84-98 | the accounting is exact in every run if and only if at most 256 connections are allowed |
| `ClientOutput.Client.WriteDirect` | src/client.c:24-63 | a prefix of the data reaches the channel, within the budget; each write offers as much as packet, window, data and budget allow; it stops only when all is sent, the budget is used up or the window is closed, and disconnects only on a failing write or, for an exec session, on a closed window |
| `ClientOutput.Client.FlushOutbox` | src/client.c:65-91 | moves all of the queue, or the whole budget of it, or what goes before the window closes; disconnects exactly when a write fails |
| `ClientOutput.Client.Compact` | src/client.c:93-107 | moving the queue to the front in place keeps its bytes |
| `ClientOutput.Client.Enqueue` | src/client.c:109-137 | appends all data, or disconnects; succeeds exactly when queue and data fit the capacity and memory is there |
| `ClientOutput.Client.SendInteractive` | src/client.c:140-170 | is a send step of the output protocol: queued whole, then flushed |
| `ClientOutput.Client.SendExec` | src/client.c:140-170 | success means all data reached the channel; any failure leaves the client disconnected |
| `ClientOutput.Client.FlushOutput` | src/client.c:172-187 | is a flush step of the output protocol |
| `ClientOutput.StepKeeps` | src/client.c:140-187 | each step keeps the channel a prefix of the accepted stream, grows it by at most 32768 bytes, and nothing moves after a disconnection |
| `ClientOutput.RunIsConsistent` | src/client.c:24-187 | over all runs and all partial writes the channel carries a prefix of the accepted bytes, and while connected, written plus pending is everything accepted |
| `ClientOutput.SilentAfterFailure` | src/client.c:12-17 | once disconnected, always disconnected, and no byte reaches the channel again |
| `ClientOutput.DisconnectsIff` | src/client.c:140-187 | a connected client is disconnected by a step if and only if its peer went away, the data did not fit the queue, or a write failed |
| `ClientOutput.OpenStep` | src/client.c:140-187 | with the window open and writes that succeed, a send or a flush puts everything queued on the channel, or the whole budget of it |
| `ClientOutput.EverythingIsSent` | src/client.c:172-187 | a connected client whose window stays open and whose writes succeed has all its queued bytes on the channel after one flush more than whole budgets are queued |
| `Common.AppendBytes` | src/common.c:89-104 | appends as much as fits before the NUL, keeps what was there, keeps the buffer terminated |
| `Common.FillTwice` | src/common.c:89-104 | appending in pieces equals appending the whole, also when the buffer fills up |
| `Common.FillIsLongest` | src/common.c:89-104 | a buffer with room takes the longest part of the data that leaves a byte for the NUL |
| `Utf8.EncodeThenAssemble` | src/json_text.c:82-120 | encoding a scalar gives a valid sequence whose payload is that scalar |
| `Utf8.AssembleThenEncode` | src/utf8.c:281-330 | every valid sequence is the encoding of its payload, a scalar value |
| `Utf8.ValidIffInTable` | src/utf8.c:281-330 | a sequence is valid if and only if the table of section 4 of RFC 3629 lists it, U+0000 apart |
| `Utf8.EncodingAscends` | src/json_text.c:82-120 | encoding keeps the order of code points: of two characters the smaller has the smaller bytes at the first difference |
| `Utf8.IsValidString` | src/utf8.c:332-359 | accepts exactly the encodings of sequences of non-zero scalar values |
| `Utf8.ValidIffEncodes` | src/utf8.c:332-359 | the validity walk holds exactly of such encodings |
| `Utf8.EncodeAllInjective` | src/json_text.c:82-120 | the encoded sequence is unique |
| `Utf8.Decode` | src/utf8.c:13-49 | returns the character at a position and its length, falling back to one byte when continuation bytes are missing |
| `Utf8.DecodeEncoded` | src/utf8.c:13-49 | decoding at an encoded character returns it and its length, whatever follows |
| `Utf8.BrokenDecodesAsByte` | src/utf8.c:13-49 | of any bytes: a first byte that lacks one of its continuation bytes is decoded as itself, alone, and any other with all of them |
| `Utf8.WalkOfEncoding` | src/utf8.c:13-49 | walking with the decoder recovers exactly the encoded sequence |
| `Utf8.Length` | src/utf8.c:143-155 | is the length of the encoded sequence |
| `Utf8.ValidConcat` | src/utf8.c:332-359 | behind a valid prefix, validity and code points are those of the rest |
| `Utf8.AsciiSplits` | src/utf8.c:281-359 | an ASCII byte splits a string into two that are valid exactly when the whole is |
| `TextCut.StringWidth` | src/utf8.c:85-97 | is the sum of the widths of the decoded characters |
| `TextCut.WideIff` | src/utf8.c:52-83 | a character is two columns wide if and only if it is in one of nine ranges, and one column otherwise |
| `TextCut.CutKeepsDecoding` | src/utf8.c:158-178 | cutting between characters changes the decoding of neither side |
| `TextCut.TruncateFits` | src/utf8.c:158-178 | the kept prefix ends between characters and fits the width |
| `TextCut.TruncateIsLongest` | src/utf8.c:158-178 | no longer prefix that ends between characters fits |
| `TextCut.TruncateIdempotent` | src/utf8.c:158-178 | truncating again changes nothing |
| `TextCut.Truncate` | src/utf8.c:158-178 | writes one NUL in place, exactly behind that prefix |
| `TextCut.RemoveLastChar` | src/utf8.c:247-258 | of any encoded text exactly the last character goes |
| `TextCut.SkipEscape` | src/utf8.c:99-117 | stops behind the escape: after its final byte, its second byte, or at the end |
| `TextCut.AnsiStringWidth` | src/utf8.c:119-140 | is the width of the characters outside escapes |
| `TextCut.ControlSequence` | src/utf8.c:99-117 | a control sequence of section 5.4 of ECMA-48, with any parameter and intermediate bytes, is passed whole and has no width |
| `TextCut.EscapedByte` | src/utf8.c:99-117 | any other byte behind an escape is passed with it |
| `TextCut.PlainWidth` | src/utf8.c:119-140 | text without escapes has the width of its characters |
| `TextCut.CutKeepsWidth` | src/utf8.c:119-140 | at a cut between tokens, before any incomplete escape, the widths of both sides add up |
| `TextCut.AnsiTruncate` | src/utf8.c:180-244 | the buffer holds exactly the specified cut, terminated |
| `TextCut.AnsiTruncateCorrect` | src/utf8.c:180-244 | for every source the output is a token-aligned prefix, the longest that fits, perhaps with a reset, within the buffer; without the reset, or with complete escapes, its measured width is within the limit |
| `TextCut.ResetsIff` | src/utf8.c:180-244 | a reset is put behind the kept prefix if and only if something was cut off, the last escape kept is not a reset, and it fits |
| `TextCut.ResetAfterIncomplete` | src/utf8.c:99-117 | what shows of a reset behind an incomplete escape: three columns behind the escape byte alone, two behind its bracket |
| `TextCut.WidthExceedsIff` | src/utf8.c:180-244 | for every source the measured width exceeds the limit if and only if a reset is put behind an incomplete escape and what then shows is too wide |
| `TextCut.UnterminatedEscapeBreaksWidth` | src/utf8.c:180-244 | an input for each of the two ways, with its exact width |
| `TextCut.CommandInputTail` | src/tui_status.c:6-51 | shows the whole input, or a marker and the longest suffix of whole characters that fits the columns left |
| `InputBuffer.Input.AppendBytes` | src/input_buffer.c:12-28 | appends all bytes if they and the NUL fit, otherwise reports overflow and changes nothing |
| `InputBuffer.Input.AppendAscii` | src/input_buffer.c:30-38 | appends a printable ASCII byte, rejects controls |
| `InputBuffer.Input.AppendSequence` | src/input_buffer.c:40-48 | appends a valid sequence, flags any other |
| `InputBuffer.Input.AppendPrintable` | src/input_buffer.c:79-117 | is one byte of the automaton |
| `InputBuffer.Input.AppendStreamByte` | src/input_buffer.c:119-138 | is one step of the automaton, whose effect on the text the rows below state |
| `InputBuffer.Input.Finish` | src/input_buffer.c:140-147 | flags a character left unfinished and forgets it |
| `InputBuffer.FlagIffInvalid` | src/input_buffer.c:54-147 | for every stream, the automaton with its finishing call flags invalid UTF-8 exactly when the raw stream fails batch validation |
| `InputBuffer.StepKeepsClean` | src/input_buffer.c:79-138 | each byte keeps a text valid and free of controls |
| `InputBuffer.AddsSubsequence` | src/input_buffer.c:79-138 | over any stream the text stays clean and within its size, and grows by the encoding of a subsequence of the stream's code points |
| `InputBuffer.NothingLost` | src/input_buffer.c:79-138 | when no call reports anything, text and pending bytes are exactly the normalised stream |
| `InputBuffer.ValidStreamShows` | src/input_buffer.c:54-138 | valid input that fits: the text grows by exactly its bytes, with one space for each CR, LF and TAB of a paste and without other control bytes; nothing but their dropping is reported |
| `InputBuffer.PlainStreamFitsIff` | src/input_buffer.c:12-138 | valid input without control bytes is appended byte for byte with every call returning OK, in both modes, if and only if it fits |
| `InputBuffer.RecoversAfterBreak` | src/input_buffer.c:97-104 | valid input that fits is shown in full whatever unfinished character it breaks off, and the break is reported |
| `InputBuffer.PastedByte` | src/input_buffer.c:119-138 | in any state each CR, LF and TAB of a paste does what a space does, and any other byte what it does outside a paste |
| `InputBuffer.ControlByte` | src/input_buffer.c:119-138 | outside a paste a control byte adds nothing, is reported, and breaks off an unfinished character |
| `JsonText.AppendString` | src/json_text.c:5-51 | appends the quoted, escaped text as far as it fits |
| `JsonText.ParseJsonString` | src/json_text.c:132-214 | the cursor loop agrees with the string grammar's reading: success, decoded bytes and end position |
| `JsonText.ParseHex4` | src/json_text.c:67-80 | reads exactly four hexadecimal digits, or fails |
| `JsonText.ReadUnit` | src/json_text.c:145-210 | one turn of the parsing loop: a quote, a byte, a short escape, or a code point from one or two `\u` escapes |
| `JsonText.SkipJsonString` | src/json_text.c:216-245 | the cursor ends behind the closing quote that the reading defines, or fails with it |
| `JsonText.SkipJsonValue` | src/json_text.c:247-288 | likewise for values of any nesting, by counting depth |
| `JsonText.GetStringField` | src/json_text.c:290-343 | returns exactly the looked-up field, in a terminated buffer |
| `JsonGrammar.ParseStringIsMeaning` | src/json_text.c:132-214 | every grammatical string parses to its meaning (surrogate pairs joined) when it has one that fits, and fails otherwise |
| `JsonGrammar.SpelledTextParses` | src/json_text.c:60-214 | a string that spells a text of non-zero characters, each as its bytes, as one of the eight two-character escapes, or as `\u` escapes of its UTF-16 code units in any case of digits, parses to the UTF-8 of that text exactly when it fits |
| `JsonGrammar.LoneSurrogateFails` | src/json_text.c:176-208 | behind any such text an escaped U+0000, a low surrogate, or a high one without a low one makes the string unreadable |
| `JsonGrammar.RoundTrip` | src/json_text.c:5-51 | parsing a printed NUL-free text restores it byte for byte, the cursor just past the quote |
| `JsonGrammar.ParsedStringIsValid` | src/json_text.c:82-214 | strings parsed out of valid UTF-8 are valid UTF-8 |
| `JsonGrammar.ScanContainer` | src/json_text.c:247-288 | depth counting passes any well-formed container, at any depth, and ends exactly behind it |
| `JsonGrammar.SkipValueStops` | src/json_text.c:247-288 | for every well-formed value followed by a delimiter the skipper stops at the value's end (for atoms, at the delimiter) |
| `JsonGrammar.LookupIsLastMember` | src/json_text.c:290-343 | in every well-formed object with readable keys, lookup returns the last member of that name when all of that name are strings that fit, and nothing otherwise |
| `JsonGrammar.LookupNeedsReadableKeys` | src/json_text.c:306-319 | in every well-formed object with a key that does not decode or exceeds 127 bytes, lookup of any name fails |
| `JsonGrammar.LookupInEmptyObject` | src/json_text.c:290-343 | lookup in an empty object finds nothing |
| `JsonGrammar.LookupNeedsObject` | src/json_text.c:290-305 | lookup in a well-formed value that is no object finds nothing |
| `ModuleProtocol.AppendMessageCreated` | src/module_protocol.c:49-81 | prints exactly the event line; into a buffer with room for more than its NUL it returns 0 if and only if the line fits with a byte to spare, into a full one it prints nothing and returns 0; invalid input changes nothing |
| `ModuleProtocol.FormatsAreParts` | src/module_protocol.c:63-76 | the format strings, byte for byte, are the punctuation, names and fixed texts of the event object |
| `ModuleProtocol.EventLineIsJson` | src/module_protocol.c:49-81 | the line is the text of one well-formed object and a newline |
| `ModuleProtocol.EventReadsBack` | src/module_protocol.c:49-81 | the type reads back as message.created, and the nested id, timestamp, sender and text byte for byte |
| `ModuleProtocol.EventFits` | src/module_runtime.c:506-527 | an event without bytes below 0x20 always fits the 4096-byte buffer |
| `ModuleProtocol.ParseMessageCreate` | src/module_protocol.c:83-112 | accepts exactly responses of that type whose text is non-empty, valid and free of controls |
| `ModuleProtocol.CreatesIff` | src/module_protocol.c:83-112 | a response that is a well-formed object with readable keys yields a text if and only if its type is message.create and that text is its plain_text, non-empty, valid, of at most 1023 bytes and free of controls |
| `ModuleProtocol.OnlyPublishable` | src/module_protocol.c:83-112 | whatever a module sends, only such texts are taken from it |
| `ModuleProtocol.CreateReadsBack` | src/module_protocol.c:83-112 | a response printed with the same printer yields its text |
| `ModuleRuntime.EventQueue.Enqueue` | src/module_runtime.c:413-443 | appends to the linked list if running, below 128 and a node is there; otherwise the queue is unchanged |
| `ModuleRuntime.EventQueue.Dequeue` | src/module_runtime.c:445-460 | removes the oldest event, keeping head, tail and length consistent |
| `ModuleRuntime.EventQueue.Shutdown` | src/module_runtime.c:663-668 | the draining loop empties the linked queue |
| `ModuleRuntime.ShutdownRuntime` | src/module_runtime.c:650-674 | empties the queue for good and closes every module |
| `ModuleRuntime.HandleResponse` | src/module_runtime.c:483-504 | classifies a response as a message, harmless or invalid |
| `ModuleRuntime.AnswersIff` | src/module_runtime.c:483-504 | a response that is a well-formed object with readable keys is a message exactly when it yields a text, otherwise harmless exactly when its type is event.ok, and invalid in all other cases |
| `ModuleRuntime.ModuleProcess.SendEvent` | src/module_runtime.c:517-527 | succeeds exactly when the event line prints into the 4096-byte buffer and is written |
| `ModuleRuntime.PlainEventPrints` | src/module_runtime.c:506-527 | a valid message without bytes below 0x20 is never the reason that printing its event closes a module |
| `ModuleRuntime.ModuleProcess.Publish` | src/module_runtime.c:462-481 | a message that can be saved reaches the room under the name of its module, any other does not |
| `ModuleRuntime.ModuleMessageIs` | src/module_runtime.c:462-473 | within the limits the published message is the time, "module:" and the name, and the text as it came |
| `ModuleRuntime.ModuleProcess.TakeReply` | src/module_runtime.c:529-566 | one turn of the response loop: the counter, the active flag and the reply |
| `ModuleRuntime.ModuleProcess.DeliverMessage` | src/module_runtime.c:506-567 | one delivery: what the counter and the active flag become, and which messages the room history gains |
| `ModuleRuntime.WorkerTurn` | src/module_runtime.c:569-587 | the oldest event goes to every module once, in turn, and the room gains their messages in that order |
| `ModuleRuntime.ListenBound` | src/module_runtime.c:529-560 | no delivery handles more than eight responses |
| `ModuleRuntime.ListenCounts` | src/module_runtime.c:483-504 | the counter is the number of invalid responses since the last valid one; an active module has fewer than three |
| `ModuleRuntime.DeliveryHears` | src/module_runtime.c:506-567 | one delivery, read by read: it takes the published messages, at most eight, and one read more, and closes the module if and only if the event could not be written, that read failed, it is a ninth response, or it is the third invalid one in a row |
| `ModuleRuns.StepKeeps` | src/module_runtime.c:413-587 | every step of a posting session, the server or the worker keeps the queue a FIFO of at most 128, the counters exact, and closed modules as they are |
| `ModuleRuns.RunKeeps` | src/module_runtime.c:413-587 | over all interleavings: delivered plus waiting is what was accepted, in order, at most 128 wait, all counters are exact, a closed module never changes again |
| `ModuleRuns.OnlySessionsMakeEvents` | src/module_runtime.c:462-481 | after any interleaving every event is a message that a session broadcast, at its place in the room, and each session's events are in its order; what modules publish never becomes an event |
| `ModuleRuns.NoAmplification` | src/module_runtime.c:506-587 | after any interleaving modules put at most eight messages per module and event into the room, and there are no more events than messages posted by sessions |
| `ModuleRuns.ModulesSpeakPlainly` | src/module_runtime.c:462-504 | after any interleaving everything in the room that is a module's stands under "module:" and its name and is non-empty valid UTF-8 of at most 1023 bytes without control bytes |
| `ModuleRuns.EveryMessageBecomesAnEvent` | src/module_runtime.c:413-443 | over all interleavings in which the runtime is not stopped, allocation succeeds and the queue has room, the accepted events of each session and the message it has yet to queue are exactly what it said |
| `ModuleRuns.TurnCanBeTaken` | src/module_runtime.c:569-587 | the fine steps of the worker amount to a turn of its loop: the oldest event goes to every module once, in turn, and their messages are broadcast in that order |
| `ModuleRuns.RoomOrderIffOnePoster` | src/input.c:738-741 | for any set of posting threads: in every run whose posts come from them the accepted events are a subsequence of the room, if and only if there is at most one of them or there are no modules |
| `ModuleRuns.OneAtATimeIsOrderly` | src/exec.c:440-442 | when no session broadcasts while another has yet to queue its message, the events are a subsequence of the room |
| `ModuleRuns.OrderCanSwap` | src/input.c:738-741 | any two sessions posting at the same time can have their events queued in the other order, which is then no subsequence of the room |
| `ModuleRuns.ClosedForGood` | src/module_runtime.c:506-567 | after any run a module whose last three responses were invalid is closed, and a closed one is never read or written again |
| `MessageLog.FormatRecord` | src/message_log.c:106-129 | reports the full length, writes as much as fits, and fails exactly when it does not fit |
| `MessageLog.ParseRecord` | src/message_log.c:38-104 | splitting the copy in place reads a line exactly as the record format says |
| `MessageLog.ParsedIff` | src/message_log.c:38-104 | a line reads as a message if and only if it is its three fields, without further separators, non-empty, within limits, valid UTF-8 and inside the time window |
| `MessageLog.RecordReadsBackIff` | src/message_log.c:38-129 | a written record reads back if and only if the message fits the format; it then fits the record buffer |
| `MessageLog.ReplayedIff` | src/message_log.c:90-98 | a record whose time text reads back is replayed if and only if it is at most ten years old and at most a day ahead |
| `MessageLog.CleanKeepsValidity` | src/message.c:209-220 | replacing separators neither breaks nor repairs UTF-8 |
| `MessageLog.SanitisedIsStorable` | src/message.c:202-220 | a sanitised message is one line that reads back |
| `MessageLog.LinesConcat` | src/message.c:154-174 | splitting after a newline splits the parts |
| `MessageLog.LinesJoin` | src/message.c:154-174 | the lines of a file, joined, are the file |
| `MessageLog.ReadsConcat` | src/message.c:154-174 | reading a file behind a newline reads its parts |
| `MessageLog.ReadsAreLines` | src/message.c:154-174 | without NUL bytes a reader gets exactly the lines |
| `MessageLog.LogReadsBack` | src/message_log.c:38-129 | records of storable messages behind whole lines read back in order, behind what those lines held |
| `MessageLog.SavedMessagesReadBack` | src/message.c:183-227 | any sequence of saved messages reads back sanitised and in order, behind what the log held |
| `MessageLog.SavedBytes` | src/message.c:202-220 | a saved byte differs from the posted one only where that is a bar, LF or CR; it is then an underscore in the name and a space in the text; names are cut to 63 bytes and texts to 1023 |
| `MessageLog.SavedUnchangedIff` | src/message.c:202-220 | a message within the limits is saved unchanged if and only if it has none of these three bytes |
| `MessageLog.PlainMessagesReadBack` | src/message.c:183-227 | messages without these bytes read back byte for byte as posted, in order, behind what the log held |
| `MessageLog.SurvivesTornIff` | src/message.c:183-227 | for torn bytes of any kind: the record saved behind them is read back, alone, if and only if the text its timestamp is then read from exists and reads as its own time |
| `MessageLog.TornLineTakesOne` | src/message.c:183-227 | what a log with a torn last line, of any bytes, holds after further saves: only the first of them is affected, and it becomes the stated reading |
| `MessageLog.RecordTail` | src/message_log.c:38-104 | what stands behind the first bytes of a record is a record with the end of its timestamp, or none |
| `MessageLog.HiddenTornSurvives` | src/message.c:160-166 | 2047 torn bytes with a NUL among them leave the record behind them untouched |
| `MessageLog.MinusOneIsLost` | src/message_log.c:90-93 | a record of time -1 does not parse, and only clocks up to the end of 1979 have it in the window |
| `MessageLog.MinusOneExample` | src/message_log.c:90-93 | such a message at clock 0 |
| `MessageLog.RecoverIsFaithful` | src/message_log_tool.c:47-103 | the recovered text of any log holds the same messages, one valid line each |
| `MessageFile.CleanInPlace` | src/message.c:209-220 | the loop replaces exactly the separators of the text in the buffer |
| `MessageFile.Save` | src/message.c:183-227 | appends the record of the sanitised message, or fails and leaves the file when it does not fit |
| `MessageFile.ReadLine` | src/message.c:160-166 | reads one line, or as much of it as the buffer holds |
| `MessageFile.ReadRecord` | src/message.c:160-171 | buffered reading with discarding: how far each read reaches and what it parses as, for any file, oversized and unterminated lines and NUL bytes included |
| `MessageFile.ReadsAreTextsIff` | src/message.c:160-166 | a reader gets the lines, each up to its first NUL, if and only if no oversized line has a NUL among its first 2047 bytes |
| `MessageFile.NewlinesCountLines` | src/message.c:117-150 | counting newlines from the scan's end counts lines |
| `MessageFile.FindStart` | src/message.c:111-153 | the 4096-byte backward scan finds where the last N lines begin |
| `MessageFile.ReadForward` | src/message.c:154-174 | fills the array with the records read from there, as many as it holds |
| `MessageFile.Load` | src/message.c:71-180 | returns the records read from the last N lines, oldest first, at most N; without NUL bytes exactly the records among the last N lines |
| `MessageFile.LoadedIs` | src/message.c:71-180 | without NUL bytes reading the last N lines again gives their records |
| `MessageFile.LoadRestoresSaved` | src/message.c:71-227 | loading N after saving at least N messages restores the last N, sanitised and in order |
| `MessageFile.LoadRestoresPlain` | src/message.c:71-227 | messages without these bytes are loaded byte for byte as posted |
| `Restart.CleanIsWhole` | src/message_log_tool.c:47-103 | a log whose every read is a record has no NUL and ends with a newline |
| `Restart.LoadAfterSaves` | src/message.c:71-227 | after saving to such a log, loading any number N gives the last N of all messages, old and new |
| `Restart.SameOrderRestores` | src/chat_room.c:12-98 | if log and room got the messages in the same order, a restarted room has the history of the old one |
| `Restart.PlainRoomRestored` | src/chat_room.c:12-98 | if moreover no message has a separator, the restored history is that of the old room byte for byte |
| `Restart.SwappedRun` | src/input.c:737-738 | two threads that save in one order and broadcast in the other |
| `Restart.RestoresIffOneThread` | src/input.c:1260-1261 | for a clean log and any set of threads: every restart after a run of theirs restores the history of the room if and only if there is at most one of them |
| `MessageFile.Search` | src/message.c:245-294 | returns exactly the last N matching records of the whole log, in order |
| `MessageFile.MatchesIff` | src/message.c:278-279 | a message matches if and only if a part of its name or of its text is the query, up to the case of ASCII letters |
| `MessageFile.MatchingIs` | src/message.c:265-293 | the matches are exactly the matching records, each as often as the log has it, in its order |
| `MessageFile.ShiftIn` | src/message.c:281-287 | appends to the window, or shifts it down by one first when it is full |
| `MessageDump.Doubled` | src/message.c:38-45 | the doubling loop ends with enough room, less than twice what is needed, and fails exactly beyond 2^63 bytes |
| `MessageDump.Buffer.Grow` | src/message.c:37-53 | growing keeps the earlier bytes |
| `MessageDump.Buffer.AppendRecord` | src/message.c:24-61 | appends the record behind the earlier bytes, or fails and keeps them; fails exactly when the text and its NUL exceed the last capacity |
| `MessageDump.FillRing` | src/message.c:344-366 | the ring holds each of the last N records at its number modulo N |
| `MessageDump.RingAt` | src/message.c:373-382 | the printing order finds the last N records in chronological order |
| `MessageDump.PrintRing` | src/message.c:373-396 | prints exactly the last N records, oldest first |
| `MessageDump.DumpText` | src/message.c:296-406 | the text of all records, or of exactly the last N; fails only for a negative limit or a text that cannot fit |
| `MessageDump.BoundedDumpIsSuffix` | src/message.c:296-406 | a bounded dump is the part of the full dump from some record on |
| `MessageLogTool.ScanLog` | src/message_log_tool.c:47-103 | counts lines, records and others, finds the first that is not a record, prints the records when recovering, and succeeds exactly when every line is a record |
| `MessageLogTool.PrintRecovered` | src/message_log_tool.c:21-30 | a parsed record always fits the output buffer |
| `MessageLogTool.CleanIff` | src/message_log_tool.c:84-102 | no invalid line is counted if and only if every line is a record, and then none is named as the first |
| `MessageLogTool.RecoverThenCheck` | src/message_log_tool.c:47-111 | checking a recovered log at the same time reports no invalid record and the same messages |
| `CommandCatalog.EditDistance` | src/command_catalog.c:180-207 | the two-row table computes the recurrence; 99 for strings of 32 bytes or more |
| `CommandCatalog.ShortestScript` | src/command_catalog.c:180-207 | some script of exactly that many single-byte edits turns one string into the other |
| `CommandCatalog.NoShorterScript` | src/command_catalog.c:180-207 | every script of edits between them is at least that long |
| `CommandCatalog.LevIsLeast` | src/command_catalog.c:180-207 | the value is at most n if and only if some script of at most n edits exists |
| `CommandCatalog.Suggest` | src/command_catalog.c:263-287 | returns the command of the first nearest name exactly when that name is within distance 2 |
| `CommandCatalog.NearIffTwoEdits` | src/command_catalog.c:263-287 | for names under 30 bytes, a word of any length is near if and only if two edits suffice |
| `HistoryView.RowsForSlice` | src/history_view.c:9-25 | counts the screen rows of a slice, dividers included |
| `HistoryView.RowsAre` | src/history_view.c:9-25 | the rows are one per message, in order, and a divider with its day in front of each message that begins a day, and nowhere else |
| `HistoryView.RowsMonotone` | src/history_view.c:68-84 | an earlier start always takes more rows |
| `HistoryView.LatestStart` | src/history_view.c:68-84 | the smallest start from which all rows fit, or the last message when none fits; that is exactly below two rows |
| `HistoryView.PrintRows` | src/tui.c:581-613 | prints the first rows of the slice, as many as the height allows |
| `HistoryView.ShowLatest` | src/tui.c:581-613 | from two rows on every message of the slice is shown; the newest is shown if and only if there are two rows |

## Left out

- libssh, sockets, key exchange and authentication: only their results appear, as arbitrary values.
- Time: clocks are parameters; one operation reads the clock once, where `ratelimit_check_ip` reads it again for a new entry.
- The calendar: `gmtime_r`, `strptime`, `timegm` and `strftime` are an abstract timestamp codec, and the local date of a message is an abstract non-empty key.
- Allocation: failures are modelled for the outbox, the event nodes and delivery targets; arrays of the log operations and `realloc` always succeed.
- File errors, log rotation at 10 MiB and the path of the state directory: a log operation sees one content of the file and its writes succeed; in `Restart` every save succeeds.
- C integer widths: counters such as `seen` and `newlines_found` are unbounded; the size arithmetic of the growing dump is modelled with its 64-bit limit.
- Module processes: fork, pipes, timeouts, resource limits, the handshake printer and the manifest scan; a script of arbitrary reads stands for a module.
- Mentions in published messages: `notify_mentions` changes no room; its references are part of `ClientLifetime`.
- `strcasestr`: folds ASCII letters only, as in the C locale.
- The scroll functions of the history view, `utf8_remove_last_word`, `message_format`, prefix completion and catalog matching: out of scope.
- Screen composition, key dispatch, text catalogs, themes, configuration, tntctl and packaging.
- Malformed JSON: what the lenient skipper accepts beyond the grammar is modelled but not characterised.
- Scheduling: that a thread which can take its next step does take it; `EveryClientCanBeFreed`, `TurnCanBeTaken` and `EverythingIsSent` say what happens once they do.
