# Parking system: a verified model

Dafny models and proofs for the parking system: the STM32 board that shows parking
frames, the two gateway processes that turn frames into lines and relay them over TCP,
the server that turns lines into sessions and billed records, the shared-memory ring and
price table, the database process that polls and reloads them, the price tool, and the
bit-level helpers of the Cortex-M0 headers.

Check everything with `dafny verify dfyconfig.toml`.

## What is modelled

Each process keeps its own form. What the program changes in place is a class or a
method on an array: the board (`Firmware.Controller`), the frame buffer
(`Wire.EncodeFrame`), the relay's 256-byte buffer (`Relay.PipeRelay`), the event loop
(`TcpServer.Server`), the session map, the ring, the poller, the price table, the
reloader. Each is proved against functions on values, and the laws are proved about
those functions.

| file | models |
|---|---|
| `Text.dfy` | C strings, lines and leftovers, what a framer should deliver |
| `AtomicRing.dfy`, `SplitRing.dfy` | the record ring as a protocol: locked sections that are atomic, and word-by-word access with no mutual exclusion |
| `SharedRing.dfy`, `Records.dfy` | the shared segment and the poller as they run |
| `Sessions.dfy`, `ServerTrace.dfy` | session map, fees, replies, and what a trace of lines comes to |
| `Connections.dfy` | what the server's calls returned, and which clients, bytes, requests and due calls that stands for |
| `TcpServer.dfy` | the poll loop, framing per client, descriptors |
| `Wire.dfy`, `Decimal.dfy` | frame to line, line to message, numbers as text |
| `Firmware.dfy` | the board's state machine and its frame memory |
| `FrameReader.dfy` | the I2C-to-pipe process |
| `Relay.dfy` | the pipe-to-TCP relay |
| `Pipeline.dfy`, `EndToEnd.dfy` | all hops composed, from the board to the database |
| `PriceFile.dfy`, `PriceTable.dfy`, `PriceReloader.dfy`, `PriceUpdater.dfy` | the price file, its two readers, its two targets, and the tool that edits it |
| `Nvic.dfy`, `BitReverse.dfy` | packed priority registers, priority groups, bit reversal |

What comes from outside is left open: which descriptors are ready, what `accept` and
`recv` return, when sends fail, how bytes are chunked, when the timer fires, when the
other process runs, what the clock and the shared price table show. Ghost fields record what came in (`io`, `input`, `calls`, `outcomes`,
`fired`), and the invariants say what was done with it as functions of these records.

## Where the code and its documentation differ, and limits found on the way

- `README.md:342-365` of the system says that after `remove` the server uses the new
  prices at once. The reloader skips removals when it rebuilds the shared table, so a city
  that the file also adds keeps its price in the server until the file loses that line:
  `PriceReloader.RemovalMissesServer`, `PriceUpdater.RemoveLeavesServerPrice`. The exact
  agreement condition is `PriceReloader.TargetsAgreeIff`.
- `add` on a file whose last line is unterminated glues the new entry to that line
  (`PriceUpdater.AddedLineIff` says exactly when), and names with a comma or a leading
  `#` or `-` cannot be read back: `PriceUpdater.AddTakesEffectIff` says exactly when `add`
  takes effect. `remove` on an unterminated file does not do what it should either:
  `PriceUpdater.RemoveChanges`.
- The two readers of the price file take two kinds of line differently, a removal with a
  comma and an entry whose price is no number: `PriceFile.LineAgreement`.
- The lock on the shared segment is documented as inter-process
  (`server/PriceTable.hpp:24`), but each process locks a static one of its own
  (`server/server_main.cpp:31`, `db/db_main.cpp:34`). Without mutual exclusion 255
  waiting records are safe and 256 are not: `SplitRing.NoTearingWithin255`,
  `SplitRing.Lag256Tears`, `SplitRing.NoPrefixWithin256`.
- A billed interval runs from the last START sample to the first END sample of a cycle,
  not over the board's nominal parking time: `Pipeline.OneRecordPerCycle`. A phase
  that no sample sees costs a record for good: `Pipeline.NothingLostIff`.
- A relay line of 255 bytes or more is dropped as if the pipe had been closed:
  `Relay.PassesIff`.

## Model

Source paths are relative to the repository root.

| member | source | states |
|---|---|---|
| `Text.JoinOfSplit` | parking_system/server/TcpServer.cpp:179-190 | splitting at newlines loses nothing: joining the lines and the leftover gives the bytes back |
| `Text.SplitOfJoin` | parking_system/server/TcpServer.cpp:179-190 | the other way round: newline-free lines that are joined are split into the same lines |
| `Text.SplitAppend` | parking_system/server/TcpServer.cpp:176-190 | the chunking law both framers rest on: splitting `a + b` is splitting `a`, then splitting the leftover of `a` followed by `b` |
| `Text.CrLfLine` | parking_system/server/TcpServer.cpp:182-190 | a line ended by CR and LF is one message without either, and none if it was empty |
| `Text.LfLine` | parking_system/server/TcpServer.cpp:182-190 | so is a line ended by LF alone |
| `Text.CStrEnds` | parking_system/server/TcpServer.cpp:176-177 | a C string ends at its first NUL |
| `Text.FieldHolds` | parking_system/server/TcpServer.cpp:234-236 | a name copied into a field is its first `size` − 1 bytes, whole if it fits; what follows a NUL is not part of it |
| `AtomicRing.LatestIsLargest` | parking_system/server/TcpServer.cpp:267-270 | of all positions below the counter that share a slot, `Latest` is the largest (with `Latest`'s own contract: it is one of them) |
| `AtomicRing.LatestExact` | parking_system/db/ShmPoller.hpp:38-50 | a slot still holds the record of position i if and only if the counter is at most 256 ahead of i |
| `AtomicRing.StoreKeepsInv` | parking_system/server/TcpServer.cpp:263-272 | one atomic store keeps the law that every slot holds the newest record of its residue |
| `AtomicRing.OverrunLaw` | parking_system/db/ShmPoller.hpp:31-52 | in every reachable state, database restarts with watermark 0 included: slot i mod 256 holds the newest stored record sharing the slot, and every row persisted is the record that was newest at its read, the intended one exactly when the lag was at most 256 |
| `AtomicRing.NoLossIff` | parking_system/db/ShmPoller.hpp:31-52 | for every run without a restart, the database is a prefix of the stored records if every read was made within 256 of the counter, and only then when the records are distinct |
| `AtomicRing.NoLossWithin256` | parking_system/db/ShmPoller.hpp:31-52 | whatever the interleaving, a lag that never exceeds 256 means that exactly the first `lastSeen` records are persisted, in order, each once |
| `SplitRing.NoTearingWithin255` | parking_system/server/TcpServer.cpp:263-272 | with the record written and copied word by word and no mutual exclusion (each process locks a lock of its own), a lag of at most 255 still means exactly a prefix is persisted, no row mixed from two records |
| `SplitRing.Lag256Tears` | parking_system/db/ShmPoller.hpp:38-50 | from any state that is 256 behind in the middle of a poll, with the server between stores and no word of the next slot copied yet, some continuation that falls no further behind persists a row nobody stored: the old record with one word, any word, of the next one in it |
| `SplitRing.Lag256Occurs` | parking_system/db/ShmPoller.hpp:31-52 | such a state is reachable by a run that is never more than 256 behind |
| `SplitRing.NoPrefixWithin256` | parking_system/db/ShmPoller.hpp:31-52 | hence 255 is tight: a run whose lag never exceeds 256 can end with a database that is no prefix of the stored records and holds a row that is none of them |
| `SharedRing.Segment.StoreRecord` | parking_system/server/TcpServer.cpp:263-272 | appends to the stored records, and to the memory only in slot counter mod 256 |
| `SharedRing.Segment.SlotHolds` | parking_system/server/TcpServer.cpp:268-270 | what a reader of slot i mod 256 finds is the newest stored record of that slot, complete |
| `SharedRing.ShmPoller.CopySlot` | parking_system/db/ShmPoller.hpp:39-49 | one round of the loop, the server free to store before it: the row appended is the newest record of the slot at that moment, and how far behind the copy was is kept |
| `SharedRing.ShmPoller.Poll` | parking_system/db/ShmPoller.hpp:31-52 | all records stored before the poll are passed, the rows appended are those `Rows` gives for the counters seen, and the database is a prefix of the stored records while no copy was ever more than 256 behind |
| `SharedRing.ShmPoller.Run` | parking_system/db/ShmPoller.hpp:31-52 | the same over any number of polls: the rows appended are those `Rows` gives for the counters seen at all copies, the largest lag is that of these copies, and the database is a prefix while that is at most 256 |
| `SharedRing.CopiedMore` | parking_system/db/ShmPoller.hpp:37-50 | the copies of one more poll continue those of the polls before |
| `SharedRing.ShortPoll` | parking_system/db/ShmPoller.hpp:37-50 | a poll that ends with the counter within 256 of where it began makes no copy more than 256 behind |
| `SharedRing.RowsExact` | parking_system/db/ShmPoller.hpp:37-50 | within a lag of 256 those rows are exactly the waiting records |
| `SharedRing.FeesConserved` | parking_system/db/ShmPoller.hpp:45-48 | money is conserved: the fees of a database in step and of the records still waiting add up to the fees of all records stored |
| `Sessions.SessionManager.Start` | parking_system/server/SessionManager.hpp:21-25 | overwrites the session of that id and no other |
| `Sessions.SessionManager.End` | parking_system/server/SessionManager.hpp:31-39 | returns and removes the session of that id if there is one, and touches no other |
| `Sessions.SessionOfCustomer` | parking_system/server/SessionManager.hpp:21-39 | after any trace, an id has an open session if and only if its last message is a START, and it is that START's |
| `Sessions.RecordsArePairs` | parking_system/server/TcpServer.cpp:210-247 | the stored records are, in order, one per END that follows a START of the same id, built from that END and the latest such START |
| `Sessions.RecordsAreBills` | parking_system/server/TcpServer.cpp:228-247 | record q bills the q-th END that found an open session: id and city of its customer, the four coordinates and two times of the two messages, and fee × 60 = elapsed seconds × the price of the first active matching row of the table at the END, or 0 without such a row or with a negative price |
| `Sessions.LastAnswer` | parking_system/server/TcpServer.cpp:218-252 | the reply to a message, from the messages before it: STARTED, or no session, or exactly that fee and those minutes |
| `Sessions.StartsCounted` | parking_system/server/TcpServer.cpp:210-216 | the number of STARTs in the conservation law is the number of positions that hold one |
| `Sessions.OverwritesCounted` | parking_system/server/SessionManager.hpp:21-25 | a START counts as overwriting exactly if the message before it of the same id is a START |
| `Sessions.StartsAreConserved` | parking_system/server/TcpServer.cpp:210-225 | STARTs = records + open sessions + overwritten STARTs, and every message gets exactly one reply |
| `Sessions.BillingIsFair` | parking_system/server/TcpServer.cpp:228-247 | with a clock that never runs backwards every record is the bill of a START and a later END, and its fee lies between 0 and (end_time − start_time) / 60 × the price of the first active row the table then held for the session's city, and is 0 when there is none or its price is not positive |
| `ServerTrace.LedgerOfEvents` | parking_system/server/TcpServer.cpp:190-200 | handling lines is processing the messages among them; every line gets exactly one reply, unreadable ones included |
| `ServerTrace.RepliesOfLines` | parking_system/server/TcpServer.cpp:190-200 | reply i is `bad_msg` if line i does not parse, and otherwise the answer to its message after the messages among the lines before it |
| `ServerTrace.ClockOfEvents` | parking_system/server/TcpServer.cpp:211-242 | with a clock that never runs backwards the readings of the handled messages do not either, so the fee bounds apply to the server's own trace |
| `Decimal.RoundedIsNearest` | parking_system/db/price_updater.c:87 | printing with six decimals is off by at most half a millionth and keeps whole millionths |
| `Decimal.PrintedReadsBack` | parking_system/db/price_updater.c:87 | a price printed with six decimals is read back as that price rounded to millionths, whatever non-digit follows it |
| `Decimal.FixedRoundTrip` | parking_system/db/price_updater.c:87 | a price in whole millionths is read back as exactly itself |
| `Decimal.PrintedShape` | parking_system/db/price_updater.c:87 | a printed price is an optional minus, digits, a point and exactly six digits |
| `Decimal.DecimalRead` | parking_system/db/PriceReloader.hpp:66 | after any blanks and an optional sign, digits with a point among them are read as the number x with x × 10^(digits behind the point) = ± the value of all digits, however many there are and whatever non-digit follows |
| `Decimal.WholeRead` | parking_system/db/PriceReloader.hpp:66 | digits without a point are read as their value |
| `Decimal.NothingRead` | parking_system/db/PriceReloader.hpp:66 | a text with neither a digit nor a point and a digit where the number should begin is refused |
| `Decimal.NatValDigits` | parking_system/db/PriceReloader.hpp:66 | the decimal digits of the value of a digit string are its characters |
| `Wire.EncodeFrame` | parking_system/bbg/bbg_i2c.c:153-183 | terminates the four text fields in place and refuses every type but S and E; otherwise yields the fields' line and newline, never more than 49 bytes |
| `Wire.Tokenize` | parking_system/server/MessageParser.hpp:27-60 | the step-by-step tokeniser accepts exactly what the specification `Tokens` accepts |
| `Wire.ParseLine` | parking_system/server/MessageParser.hpp:27-61 | the step-by-step parser computes `Parse`, whose meaning is `ParseIff` and `SpelledReads`, with the numbers of `Decimal.DecimalRead` |
| `Wire.TokensOfLine` | parking_system/server/MessageParser.hpp:27-60 | tokenising undoes formatting for every frame of clean fields |
| `Wire.LineOfTokens` | parking_system/server/MessageParser.hpp:27-60 | formatting undoes tokenising: a line that tokenises is exactly the line of its fields |
| `Wire.ParseIff` | parking_system/server/MessageParser.hpp:27-61 | a line parses to a message if and only if it is the line of clean fields whose coordinates are numbers and whose names, cut to 63 bytes, are the message's |
| `Wire.SpelledReads` | parking_system/server/MessageParser.hpp:27-61 | a line of clean texts (type, bar, id, bar, latitude, comma, longitude, bar, city) is read as that type, the names cut to 63 bytes, and latitude and longitude in this order |
| `Wire.FrameRoundTrip` | parking_system/bbg/bbg_i2c.c:153-183 | 48-byte frame to wire line to message: one line, not skipped by the server, parsed to the frame's own type, id, city and coordinates |
| `Wire.FrameSpelled` | parking_system/bbg/bbg_i2c.c:153-183 | a frame whose bytes 1-15, 16-23, 24-31 and 32-47 hold four texts is sent as its type, id, latitude, longitude and city in this order, with those separators |
| `Firmware.VehicleFrameSendable` | parking_system/stm32/Parking_stm32/Core/Src/main.c:113-127 | every frame the board can build survives that round trip, and shows exactly its vehicle |
| `Firmware.FrameLayout` | parking_system/stm32/Parking_stm32/Core/Src/main.c:113-127 | the frame holds the type in byte 0 and the vehicle's id, latitude, longitude and city in bytes 1-15, 16-23, 24-31 and 32-47 |
| `Firmware.CarsOk` | parking_system/stm32/Parking_stm32/Core/Src/main.c:80-85 | the four vehicles fit their fields, contain no separators, and have different ids |
| `Firmware.WrapKeepsOrder` | parking_system/stm32/Parking_stm32/Core/Src/main.c:115 | the 32-bit wrap-around of the vehicle index never disturbs the vehicle order |
| `Firmware.AfterTicksAt` | parking_system/stm32/Parking_stm32/Core/Src/main.c:245-290 | after any number of handled ticks the whole board state is the closed form of cycle n div 17 and position n mod 17 |
| `Firmware.ClosedForm` | parking_system/stm32/Parking_stm32/Core/Src/main.c:245-290 | state, seconds counter, vehicle index, frame type and vehicle shown as functions of the tick number; S for 11 ticks, then E for 6 |
| `Firmware.Controller.PutField` | parking_system/stm32/Parking_stm32/Core/Src/main.c:119-126 | `snprintf("%s")` into a zeroed field: copied up to the field's last byte, nothing else touched |
| `Firmware.Controller.BuildFrame` | parking_system/stm32/Parking_stm32/Core/Src/main.c:113-127 | the 48 bytes become those of the current vehicle and type |
| `Firmware.Controller.TimerElapsed` | parking_system/stm32/Parking_stm32/Core/Src/main.c:169-173 | the timer only raises the flag; unhandled ticks are merged, never counted twice |
| `Firmware.Controller.HandleTick` | parking_system/stm32/Parking_stm32/Core/Src/main.c:245-290 | one tick moves the board from its n-tick closed form to its (n+1)-tick closed form, frame bytes included |
| `Firmware.Controller.Loop` | parking_system/stm32/Parking_stm32/Core/Src/main.c:225-291 | one turn of the main loop handles a tick exactly when the flag was set, and clears it |
| `Connections.NetMeans` | parking_system/server/TcpServer.cpp:94-201 | for any returned calls: the table lists every client once and at most 64, every request carries the descriptor its connection was accepted on, and the requests of a connection are the message lines of its own bytes |
| `Connections.ConnectedAreOpen` | parking_system/server/TcpServer.cpp:138-177 | the connected clients are the descriptors accepted while fewer than 64 were open and not found gone since |
| `Connections.AcceptOpens` | parking_system/server/TcpServer.cpp:138-161 | `accept` opens the next connection exactly when it returned a new descriptor while fewer than 64 were open |
| `Connections.AllStreamsHeard` | parking_system/server/TcpServer.cpp:165-177 | a connection's stream is, in order, all that `recv` returned for its descriptor from its `accept` to the next `recv` that found it gone, each return cut at its first NUL |
| `Connections.DownPositions` | parking_system/server/TcpServer.cpp:107-108 | the backward scan meets exactly the ready positions from the last down to 1 |
| `Connections.WakesAreServed` | parking_system/server/TcpServer.cpp:94-127 | if what is due has been done: between two polls there is one `accept` if the listener is ready and then one `recv` on the client at each ready position k ≥ 1, in descending k, and nothing else; nothing follows an interrupted or failed poll |
| `Connections.WithoutAt` | parking_system/server/TcpServer.cpp:111-112 | erasing the position of a client is taking exactly that client out of the table |
| `TcpServer.FramingReceive` | parking_system/server/TcpServer.cpp:176-200 | receiving a chunk and handling its lines keeps the framing: handled lines = requests of the bytes received, buffer = the unfinished line |
| `TcpServer.TableMeans` | parking_system/server/TcpServer.cpp:94-127 | between two wake-ups the poll table lists the listener and exactly the buffered clients, once each, at most 64, and no other descriptor is open |
| `TcpServer.Server.ProcessMessage` | parking_system/server/TcpServer.cpp:205-259 | session map, stored records and the reply change exactly as the business-logic specification says, at the times the clock shows and the price the shared table holds |
| `TcpServer.Server.Answer` | parking_system/server/TcpServer.cpp:192-199 | the same for a line: parsed and processed, or answered as unreadable |
| `TcpServer.Server.HandleLine` | parking_system/server/TcpServer.cpp:190-199 | one line is parsed, processed and answered to its own descriptor, at that line's clock readings and price table, whatever the database process has made of the table; the books stay those of all lines handled |
| `TcpServer.Server.HandleLines` | parking_system/server/TcpServer.cpp:179-200 | handles exactly the non-empty CR-stripped lines of the buffer, in order, answers each on the client's own descriptor, and leaves the newline-free rest |
| `TcpServer.Server.HandleClient` | parking_system/server/TcpServer.cpp:165-201 | one `recv`: exactly the bytes it returned, up to their first NUL, join that client's stream and no other, and the lines they complete are handled; the client is dropped if and only if it returned none |
| `TcpServer.Server.DisconnectClient` | parking_system/server/TcpServer.cpp:285-289 | closes and forgets that client only |
| `TcpServer.Server.AcceptClient` | parking_system/server/TcpServer.cpp:138-161 | one `accept`: the new descriptor is queued with an empty buffer if there are fewer than 64 clients, and closed again otherwise |
| `TcpServer.Server.ServeOne` | parking_system/server/TcpServer.cpp:108-113 | a ready client is received from exactly once, and erased exactly when that `recv` found it gone; the clients, buffers and handled lines stay those of the calls made |
| `TcpServer.Server.ServeReady` | parking_system/server/TcpServer.cpp:106-114 | the backward scan with in-place erasure calls `recv` on the client at every ready position k ≥ 1 exactly once, in descending k, makes no other call, and leaves exactly the live clients in their order |
| `TcpServer.Server.Serve` | parking_system/server/TcpServer.cpp:102-126 | one wake-up makes one `accept` if the listener is ready, then those `recv`s, and no other call; table, framing and books stay those of all calls made |
| `TcpServer.Server.Wake` | parking_system/server/TcpServer.cpp:94-127 | one round is one `poll` and exactly the calls it asks for |
| `TcpServer.Server.Run` | parking_system/server/TcpServer.cpp:86-134 | the loop polls as often as it is let, or until `poll` fails; between any poll and the next it makes exactly the calls asked for, one per ready position in descending order; at the end only the listener is open; handled lines, buffers and books are those of the calls made |
| `TcpServer.ServerMeans` | parking_system/server/TcpServer.cpp:165-259 | for any run, chunking and interleaving: each connection's stream is what `recv` returned for it while it lasted; per connection exactly the message lines of that stream have been handled, each once and answered once, on the descriptor `accept` returned for the connection; buffers hold the unfinished lines of the open connections |
| `TcpServer.ServerBooks` | parking_system/server/TcpServer.cpp:205-259 | for any clock and any changes of the price table between lines: every reply is the one due after the lines before it, the open sessions are the latest STARTs, the stored records are exactly the bills of the ENDs that found one, fees are fair if the clock never runs backwards, and STARTs are conserved |
| `PriceTable.PriceTable.Lookup` | parking_system/server/PriceTable.hpp:34-47 | the price of the first active row of that city, -1 if there is none |
| `PriceTable.PriceTable.LoadFromFile` | parking_system/server/PriceTable.hpp:58-89 | the table becomes the first 64 rows of the file's `fgets` pieces; a missing file changes nothing |
| `PriceTable.FirstMatch` | parking_system/server/PriceTable.hpp:38-44 | the price is that of the first active row naming the city; without a price no active row names it |
| `PriceTable.OneAnswer` | parking_system/server/PriceTable.hpp:34-47 | the answer is the price of the first active row of that city, -1 if there is none |
| `PriceFile.LineAgreement` | parking_system/server/PriceTable.hpp:70-82 | on a simple line the server's loader and the database's reloader take the same rows if and only if the line is not a removal with a comma nor an entry whose price is no number; else the loader takes one more |
| `PriceFile.FileAgreement` | parking_system/db/PriceReloader.hpp:50-69 | hence from a file of simple lines they take the same rows if and only if no line is such a line |
| `PriceFile.TableAgreement` | parking_system/server/PriceTable.hpp:64-83 | and their tables of 64 rows are the same if no line is such a line before the 64th row; only then while the table is not full, or as long as no city is read twice; and otherwise at most if the line's row is also the next one the reloader takes |
| `PriceFile.ReloadsEntry` | parking_system/db/PriceReloader.hpp:51-69 | a line `name,number` that begins with neither # nor - is an addition of that name at that number, and nothing if the text is no number |
| `PriceFile.ReloadsRemoval` | parking_system/db/PriceReloader.hpp:55-58 | a line that begins with - is the removal of the name after it |
| `PriceFile.ReloadsNothing` | parking_system/db/PriceReloader.hpp:51-62 | blank lines, comments and lines without a comma are nothing |
| `PriceFile.ReloadsCr` | parking_system/db/PriceReloader.hpp:51-54 | a carriage return at the end of a line changes nothing |
| `PriceFile.LoadsEntry` | parking_system/server/PriceTable.hpp:66-83 | the loader makes `name,number`, with any line end, one active row: the name cut to 63 bytes and the number, or 0 if there is none |
| `PriceFile.LoadsNothing` | parking_system/server/PriceTable.hpp:66-73 | blank lines, comments and lines without a comma are no row |
| `PriceFile.PiecesMean` | parking_system/server/PriceTable.hpp:66-67 | the `fgets` pieces put together are the file; each ends at a newline, at 255 bytes or at the end of the file |
| `PriceReloader.Reloader.ReadChanges` | parking_system/db/PriceReloader.hpp:50-69 | the changes read are those of the file's lines, last unterminated line included |
| `PriceReloader.Reloader.Reload` | parking_system/db/PriceReloader.hpp:32-103 | database and shared table become the fold and the capped list of the changes; with no changes or no file nothing is touched |
| `PriceReloader.DbKeepsLast` | parking_system/db/PriceReloader.hpp:77-82 | the database keeps the last change of each city |
| `PriceReloader.TableKeepsFirst` | parking_system/db/PriceReloader.hpp:86-95 | the shared table answers with the first addition, whatever removals follow |
| `PriceReloader.TableAnswers` | parking_system/server/PriceTable.hpp:34-47 | after any reload the server's lookup finds the first of the first 64 additions whose name, cut to 63 bytes, is the city |
| `PriceReloader.FirstListedMeans` | parking_system/db/PriceReloader.hpp:86-95 | which addition that is: it has room, reads as the city, and none before it does |
| `PriceReloader.TargetsAgreeIff` | parking_system/db/PriceReloader.hpp:71-95 | for any changes: server and database agree on a city if and only if that addition says what the city's last change says, or there was no change and they agreed before |
| `PriceReloader.ShortTargetsAgreeIff` | parking_system/db/PriceReloader.hpp:76-95 | with changes, at most 64 additions and names shorter than 64 bytes: if and only if the last change is an addition at the first addition's price, or a removal and the city was never added, or it is not mentioned and was not there |
| `PriceReloader.RemovalMissesServer` | parking_system/db/PriceReloader.hpp:87-88 | a removal added to any file deletes the city from the database and leaves the shared table as it is, so the server still charges the first price the file gives |
| `PriceUpdater.CopyOthers` | parking_system/db/price_updater.c:70-85 | the copying loop keeps exactly the pieces that are not the city's entry |
| `PriceUpdater.CmdAdd` | parking_system/db/price_updater.c:56-96 | the new file is that copy and the new entry; if the temporary file cannot be written or renamed, the file stays as it is |
| `PriceUpdater.CopiedLines` | parking_system/db/price_updater.c:72-83 | on simple lines the `fgets` loop is a filter on lines: the city's entries go, all else stays in order |
| `PriceUpdater.AddedLineIff` | parking_system/db/price_updater.c:82-87 | the new entry gets a line of its own if and only if the old last line was terminated or was the city's own entry; otherwise the two are glued together |
| `PriceUpdater.EntryReads` | parking_system/db/price_updater.c:87 | the entry written is read back as that city at the price rounded to millionths |
| `PriceUpdater.AddUpdates` | parking_system/db/price_updater.c:56-96 | where its entry gets a line of its own, `add` sets the city's price and changes no other, and keeps at most one entry per city |
| `PriceUpdater.ChangesOfAdded` | parking_system/db/price_updater.c:70-88 | for any file at all: what a reload reads after `add` are the changes in the text kept, then those of the new entry behind whatever was kept unterminated |
| `PriceUpdater.AddTakesEffectIff` | parking_system/db/price_updater.c:56-96 | on a file of simple lines `add` gives the city its price if and only if the name has no comma and does not start with `#` or `-`, and the file's last line is terminated or the city's own entry |
| `PriceUpdater.LookupAfterRun` | parking_system/db/price_updater.c:56-96 | after any run of `add` and a reload, the server's lookup is the map updated by those adds |
| `PriceUpdater.RemoveChanges` | parking_system/db/price_updater.c:100-112 | `remove` adds its removal and changes nothing else if and only if the file is terminated |
| `PriceUpdater.RemoveLeavesServerPrice` | parking_system/db/price_updater.c:100-112 | what the operator sees after `remove`: gone from the database, the shared table unchanged, still charged by the server |
| `Relay.PipeRelay.Scan` | parking_system/bbg/bbg_tcp.c:208 | `strchr` and `strlen` in the terminated buffer find the first match or the terminator |
| `Relay.PipeRelay.TcpSend` | parking_system/bbg/bbg_tcp.c:118-146 | exactly these calls are made for a line: a `connect` if there is no connection, and unless that failed one `send`; a failure leaves the relay unconnected and is not retried |
| `Relay.PipeRelay.SendLines` | parking_system/bbg/bbg_tcp.c:203-227 | every complete line in the buffer is sent once, in order, with its exact bytes |
| `Relay.PipeRelay.Compact` | parking_system/bbg/bbg_tcp.c:229-232 | the unfinished line is moved to the front, its bytes unchanged |
| `Relay.PipeRelay.OnData` | parking_system/bbg/bbg_tcp.c:200-232 | one read keeps the refinement: lines attempted = lines of the session's bytes, buffer = their unfinished tail, every index inside the 256 bytes |
| `Relay.PipeRelay.OnClosed` | parking_system/bbg/bbg_tcp.c:189-198 | a closed pipe drops the unfinished line and attempts nothing |
| `Relay.PipeRelay.Round` | parking_system/bbg/bbg_tcp.c:178-232 | one `read`, and what it asks for: the lines attempted and the buffer are those of all reads so far |
| `Relay.PipeRelay.Run` | parking_system/bbg/bbg_tcp.c:174-233 | so in every run: for what `read` returned, whatever the chunks, closed pipes and failed sends, the lines attempted are exactly its complete lines, session by session; the loop stops early only when a read fails or the pipe cannot be opened again |
| `Relay.RelayMeans` | parking_system/bbg/bbg_tcp.c:174-233 | hence at most one `send` per complete line, none before a successful `connect`, and the connections got the in-order subsequence of lines whose `send` succeeded |
| `Relay.SessionReads` | parking_system/bbg/bbg_tcp.c:181-200 | the bytes framed are those read since the pipe was last closed and opened again, each read cut at its first NUL |
| `Relay.SegmentsBetween` | parking_system/bbg/bbg_tcp.c:121-133 | part k of what was sent is exactly the successful sends between the k-th successful `connect` and the next |
| `Relay.FlatSegments` | parking_system/bbg/bbg_tcp.c:121-133 | cut into the connections they went over, a new one after every failed `send`, these lines are neither lost nor reordered |
| `Relay.AllKept` | parking_system/bbg/bbg_tcp.c:219-224 | with no failed send, everything attempted is delivered |
| `Relay.TailStaysShort` | parking_system/bbg/bbg_tcp.c:181-183 | while no line exceeds 254 bytes the leftover stays below 255, so no read ever asks for 0 bytes |
| `Relay.PassesIff` | parking_system/bbg/bbg_tcp.c:181-198 | a stream can be carried to its end if and only if no line has 255 bytes or more before its newline |
| `Pipeline.BoardShows` | parking_system/stm32/Parking_stm32/Core/Src/main.c:113-127 | what a sample of the board's memory reads is a function of the ticks handled |
| `Pipeline.BytesShow` | parking_system/stm32/Parking_stm32/Core/Src/main.c:113-127 | those bytes hold the closed form's frame, and it survives the round trip |
| `Pipeline.EverySixSkipsNothing` | parking_system/stm32/Parking_stm32/Core/Src/main.c:245-290 | sampling at least once in six ticks misses no START or END phase |
| `Pipeline.OneRecordPerCycle` | parking_system/server/TcpServer.cpp:205-247 | repeated samples still give exactly one record per completed cycle, in order, from its last START sample to its first END sample; all other ENDs are refused and at most one session is open |
| `Pipeline.NothingLostIff` | parking_system/server/TcpServer.cpp:205-247 | for all samples in order: every cycle that has ended on the board has its record if and only if no phase was missed; a lost record is never made up for |
| `Pipeline.GapOfSevenLoses` | parking_system/server/TcpServer.cpp:205-247 | six is tight: two samples seven ticks apart, at the end of a START frame, lose a record for good in every cycle this happens to, whatever is sampled before and after |
| `FrameReader.I2cReader.WritePipe` | parking_system/bbg/bbg_i2c.c:186-190 | what went into the pipe are the lines whose writes succeeded |
| `FrameReader.I2cReader.Round` | parking_system/bbg/bbg_i2c.c:135-190 | one read, and the line of its frame if it is whole and of a known type |
| `FrameReader.I2cReader.Run` | parking_system/bbg/bbg_i2c.c:135-190 | every such frame is passed on as its line, once, in order |
| `EndToEnd.PipeBytesFit` | parking_system/bbg/bbg_i2c.c:157-183 | the bytes of any samples never fill the relay's buffer, however they are chunked |
| `EndToEnd.ReaderPipes` | parking_system/bbg/bbg_i2c.c:135-190 | a reader that has sampled the board has put exactly the lines of the samples whose write succeeded into the pipe |
| `EndToEnd.RelayDelivers` | parking_system/bbg/bbg_tcp.c:178-233 | a relay that has read them, in any chunks, has put exactly the lines of the samples whose send succeeded on its connections, one after the other |
| `EndToEnd.ByConnection` | parking_system/server/TcpServer.cpp:165-201 | requests handled in the order of their connections are the lines of these connections, one after the other |
| `EndToEnd.LossyRun` | parking_system/server/TcpServer.cpp:165-259 | board memory, frame encoder, pipe, relay, its connections and server composed, any writes, connects and sends failing, a new connection after each failure: never more records than cycles ended by the last sample that arrived, and exactly one for each if and only if a sample of every phase up to then arrived |
| `EndToEnd.EveryCycleBilledOnce` | parking_system/server/TcpServer.cpp:165-259 | and with a sample in every six ticks and no failures: one record per completed vehicle cycle, every sample answered as it should be |
| `EndToEnd.EveryCyclePersisted` | parking_system/db/ShmPoller.hpp:31-52 | and, locked sections taken as atomic, a poller that was never more than 256 behind and has caught up has exactly one row per completed cycle, for its vehicle, from the clock at the last START sample to the clock at the first END sample, at the price the shared table then held; their fees add up to all the server charged |
| `EndToEnd.EveryCyclePersistedUnlocked` | parking_system/db/ShmPoller.hpp:31-52 | the same rows, whole, with the records written and copied word by word and no mutual exclusion, if the poller was never more than 255 behind |
| `Nvic.OwnByte` | parking_system/stm32/Parking_stm32/Drivers/CMSIS/Include/core_cm0.h:610-612 | different interrupts that share a register have different bytes in it |
| `Nvic.DeviceByte` | parking_system/stm32/Parking_stm32/Drivers/CMSIS/Include/core_cm0.h:730-742 | interrupt n < 32 owns bits 8·(n mod 4) to 8·(n mod 4) + 7 of register n / 4, and a set leaves the shifted priority there |
| `Nvic.SystemByte` | parking_system/stm32/Parking_stm32/Drivers/CMSIS/Include/core_cm0.h:730-742 | and a system handler the byte its low four bits name |
| `Nvic.SetOne` | parking_system/stm32/Parking_stm32/Drivers/CMSIS/Include/core_cm0.h:730-765 | setting one priority changes that interrupt's priority, cut to the implemented bits, and no other's |
| `Nvic.Controller.SetPriority` | parking_system/stm32/Parking_stm32/Drivers/CMSIS/Include/core_cm0.h:730-742 | the read-modify-write leaves the registers that `WithPriority` describes |
| `Nvic.Controller.GetPriority` | parking_system/stm32/Parking_stm32/Drivers/CMSIS/Include/core_cm0.h:754-765 | reads the interrupt's byte, shifted to the implemented bits |
| `Nvic.RegistersAreAMap` | parking_system/stm32/Parking_stm32/Drivers/CMSIS/Include/core_cm0.h:730-765 | after any sequence of sets, each interrupt's priority is the last one set for it, modulo 2^bits |
| `Nvic.FieldWidths` | parking_system/stm32/Parking_stm32/Drivers/CMSIS/Include/core_cm0.h:785-786 | under wrapping arithmetic the two field widths add up to the implemented bits |
| `Nvic.PreemptIsLeast` | parking_system/stm32/Parking_stm32/Drivers/CMSIS/Include/core_cm0.h:785-786 | the preemption field is the smaller of the implemented bits and what the group leaves it |
| `Nvic.DecodeOfEncode` | parking_system/stm32/Parking_stm32/Drivers/CMSIS/Include/core_cm0.h:779-817 | decoding an encoded priority gives both fields, cut to their widths |
| `Nvic.EncodeOfDecode` | parking_system/stm32/Parking_stm32/Drivers/CMSIS/Include/core_cm0.h:779-817 | encoding decoded fields gives the priority modulo 2^bits |
| `Nvic.DecodePriority` | parking_system/stm32/Parking_stm32/Drivers/CMSIS/Include/core_cm0.h:806-817 | returns two fields that fit their widths and encode to the priority modulo 2^bits |
| `BitReverse.Rbit` | parking_system/stm32/Parking_stm32/Drivers/CMSIS/Include/cmsis_iccarm.h:511-522 | bit k of the result is bit 31 − k of the argument, for every word, despite the early exit and the garbage above |
| `BitReverse.ReversedTwice` | parking_system/stm32/Parking_stm32/Drivers/CMSIS/Include/cmsis_iccarm.h:511-522 | reversing twice is the identity |
| `BitReverse.Clz` | parking_system/stm32/Parking_stm32/Drivers/CMSIS/Include/cmsis_iccarm.h:496-509 | counts the trailing zeros of the reversed word; 32 exactly for zero |

## Left out

- Sockets, `poll`, FIFO, I2C and signal calls themselves: they are open choices, and a send succeeds or fails as a whole; a short `send` is not modelled.
- Database errors: every insert, update and delete of a row succeeds; the price rows are a map, the sessions an append-only sequence.
- The locks: `AtomicRing` and `SharedRing` take every locked section as atomic, `SplitRing` takes single words as atomic under sequential consistency; weaker memory orders are not modelled.
- The record counter past 2^31 − 1: it is a natural number here.
- Rounding: prices, coordinates, fees and minutes are real numbers.
- Exponents, hexadecimal, infinities and range errors in number texts: `Decimal.Stod` reads plain decimals and refuses a text that does not start with one.
- The instant of a change of the price table within the handling of one line: the table may change before every line, but a line sees one table, as it makes one lookup.
- Torn I2C transfers while the frame memory is rewritten: a sample is a whole frame.
- Loggers, configuration parsers, `main` functions, PID files, the `list` command, shell scripts: nothing to state beyond their bodies.
- `SessionManager::size`, which nothing calls.
- Attaching, creating and destroying the shared segment.
- The other CMSIS functions and the copies of these functions in the other core headers.
- AtomicRing.NoLossIff: the converse asks for distinct records, because equal records hide a loss; restarts are covered by AtomicRing.OverrunLaw instead.
- SharedRing.ShmPoller.Poll: the records stored meanwhile are arbitrary complete records; that the server stores only such records is proved in TcpServer.Server.ProcessMessage.
- Wire.ParseLine: coordinates are plain decimals, as said above; how they are read is Decimal.DecimalRead and Decimal.WholeRead.
- Wire.ParseIff: exact for plain decimal coordinates, as said above.
- Wire.FrameRoundTrip: names with separators, carriage returns at the line's end or newlines are excluded, as they cannot survive; Wire.ParseIff covers every line.
- TcpServer.Server.ProcessMessage: a reply is its kind with the fee and the minutes as numbers, not its text rounded to two and one decimals.
- TcpServer.Server.Run: `stop()` is a number of wake-ups chosen in advance.
- Relay.PipeRelay.Run: a stop signal is a number of rounds chosen in advance; the text the server sends back, which the relay only logs, is not modelled.
- PriceUpdater.CmdAdd: prices that are not finite; the temporary file's own name, which a very long path would cut.
- PriceUpdater.AddUpdates: for lines that fit one `fgets` and names of one line; what `add` does elsewhere on such files is PriceUpdater.AddTakesEffectIff.
- PriceUpdater.AddTakesEffectIff: for files of lines that fit one `fgets` and hold no NULs or inner carriage returns; longer lines are copied piece by piece, as PriceUpdater.CopyOthers says.
- PriceUpdater.LookupAfterRun: for such files and for names the format keeps apart; every entry added fits one `fgets`, as the next `add` would otherwise cut it.
- EndToEnd.LossyRun: for one board, one pipe session and no other client; the server is taken to accept the relay's connections in their order, to receive all that was sent on them, and to handle no line of an earlier one after a line of a later one, as a scan that meets both at once may do.
- Nvic.Controller.SetPriority: for the interrupt numbers that have a priority register; the register files are sequences.
