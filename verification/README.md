# Verified model of the cloredis client core

The client speaks version 2 of the Redis serialization protocol through its bundled
hiredis sources and shares connections through a pool. This project models the parts of it
that carry state from one call to the next, and proves what they promise. It is plain
Dafny: `dafny verify dfyconfig.toml` checks all of it.

**The protocol codec.** `Resp` is a recursive-descent grammar over a complete byte string.
`Reader` is the reader as it is in read.c: a buffer with a cursor and a discard rule, a
stack of nine tasks, and a tree of reply objects that is filled through parent pointers.
`WireForms` gives the same grammar without a parser: which bytes, as numbers, are a reply of
which value, and which can never become one. `Frames` gives each stack its meaning, what is
left to read and what to do with it, and `ReplyTree` does the same for the half-built tree;
with them every step of the reader is shown to keep the grammar's verdict on everything
received. `Commands`, `SdsFormat` and `Template` are the three ways to build a command,
`TemplateWords` says what templates mean as their users write them, `Arguments` is the walk
over a built one, and `Pipeline` closes the circle: any commands, written in any parts and
read in any pieces, come out as they went in. `Numbers` has the decimal conversions on
64-bit words.

**Dynamic strings.** `Sds` has headers and growth with its amortised cost, `Quoting` the
printer and the lexer that undo each other, `Lines` command lines as they are typed,
`Splitting` the cut and the join.

**The connection pool.** `PoolThreads` takes every lock, unlock, critical section and
counter update of N threads as a step of its own and proves ownership, conservation,
bounds and progress for all interleavings; `PoolRuns` says what a whole Get or Put of one
thread comes to in these steps. `IdleList` and `ConnectionPool` take one thread
and a clock that does not go back, with the linked list on the heap, and prove what is
reused, expired and evicted. `Handles` adds the owning handles of connection.cc and whole
programs over them.

**The dictionary.** `Hashing`, `Dict` and `DictIterator` are the chained hash table with its
relinking expansion. It agrees with a finite map through any operations, and a walk
tolerates the deletion of what it has just returned.

**The asynchronous context.** `Callbacks` is the linked queue, `Subscriptions` the two
dictionaries of names with their counters, `Spelling` how commands and notices are spelt,
`AsyncHistory` the account of what was accepted,
what arrived and what ran, `Dispatching` the function from a reply and the state to the
callback that is found, and `Async` the context itself. A callback may issue commands,
disconnect and free the context; the proofs hold whatever it does. `AsyncBytes` puts the
reader under the context: from the bytes of the connection, in any pieces, to the callbacks;
`AsyncBytes.Life` is the result of it all.
`Listening` and `Monitoring` show where replies go astray, and `AsyncRuns` has whole runs of
subscriptions.

Some results are limits of the code, each with the exact condition.

- The counter of N threads stays within `max_active` in every run if and only if N is at
  most one (`PoolThreads.PlainBoundIff`); `max_active` - 1 + N is a bound, and it is met
  (`PoolThreads.BoundReached`).
- A move onto a loaded handle loses a connection for ever (`Handles.Moved`). A pointer
  assigned to a handle keeps every later Put legal if and only if it is null, or held by
  the caller and in no handle (`Handles.PointIff`); `h = h.mutable_impl()` is the simplest
  way to break that (`Handles.SelfAssignment`). `set_impl` puts nothing back and has a
  condition of its own (`Handles.OverwriteIff`).
- `redisFormatSdsCommandArgv` returns the command and its length if and only if an int can
  hold that length (`SdsFormat.FormatSdsCommandArgv`), and then it agrees with the other
  builder (`SdsFormat.BuildBoth`). Beyond, it stores to wrong positions exactly when the
  last length line ends behind 2^31 - 1; if not, the last argument alone decides whether it
  aborts and whether its bytes are right (`SdsFormat.LastDecides`).
- In a subscribed or monitoring context a reply that finds no callback runs the one of the
  reply before it again, exactly in the cases that `Dispatching.Dispatch` calls `Stale`
  (`Async.AsyncContext.ProcessCallbacks`); `AsyncRuns.StaleRun` is such a run. A
  batch of messages has none if and only if no message for an unknown name comes while the
  latest known one has a callback (`Listening.NoneStaleIff`).
- In monitor mode a read that completes no line puts an empty callback into the queue. Every
  line reaches the monitor callback if and only if at most one line comes after the first
  such read (`Monitoring.EveryLineIff`, `AsyncRuns.Watch`).
- All bytes moved by appending are paid for by the allocation, in every run that ends with
  a given length, if and only if that length is below 1,048,603 (`Sds.PaidForIff`).
- A subscription counter covers what is owed as long as every notice was owed
  (`Async.AsyncContext.OwedIsKept`). A new name gets a positive counter from every command
  if and only if no counter is below zero (`Subscriptions.CarryIff`); `AsyncRuns.UncoveredRun`
  reaches a table where one is.

## Reading the contracts

- Environment. What `read` and `write` return, what the clock says (`Clock.Read`), whether
  a connection initialises, and what user callbacks do are parameters or arbitrary choices.
- `Tracks`, `Completes` and `Emits` (module `Frames`) quantify over every continuation of
  the input: they say what the bytes used so far mean, whatever comes next.
- `Represents(o, v, tree)` says that the object graph at `o` is a complete reply tree for
  the value `v`.
- `Placed` (module `ConnectionPool`) and `BlocksOk` (module `PoolThreads`) say that every
  block is in exactly one place.
- `Replay` (module `Dispatching`) is what a list of replies comes to when callbacks leave
  the context alone; a context with `quiet` set has only such callbacks.
- `History` (module `AsyncHistory`) records events; `Ok` is what stays true of it.

## Model

| member | source | states |
|---|---|---|
| `Numbers.StringToLongLong` | `src/hiredis/read.c:157-218` | `string2ll` on 64-bit words: the fast digit loop, whose guards keep every unsigned step in range, returns exactly what the definition of a canonical decimal in range gives |
| `Numbers.ParseLongIff` | `src/hiredis/read.c:145-218` | a string is accepted with value v if and only if v is a 64-bit integer and the string is its one printed form: no plus sign, no leading zero, no minus zero |
| `Numbers.LongLongToString` | `src/hiredis/sds.c:422-456` | `sdsll2str` leaves the canonical form and a terminator in a 21-byte buffer, for every 64-bit integer including the least one |
| `Numbers.UnsignedToString` | `src/hiredis/sds.c:461-487` | `sdsull2str` leaves the canonical form and a terminator in the same buffer for every unsigned 64-bit integer |
| `Numbers.ReverseInPlace` | `src/hiredis/sds.c:445-454` | the swapping loop turns the digits around and touches nothing else |
| `Numbers.CountDigits` | `src/hiredis/hiredis.c:191-201` | `countDigits` is the length of what is printed |
| `Bytes.StrLen` | `src/hiredis/hiredis.c:262-263` | `strlen`: no NUL before the length, and one there if the memory goes on |
| `Bytes.Terminated` | `src/hiredis/hiredis.c:262-265` | a C string is the text that its terminator ends, whatever the memory holds behind |
| `Sds.CatLenValid` | `src/hiredis/sds.c:194-237` | appending keeps length and allocation within the fields of the chosen header, makes room, and allocates at most twice what is needed |
| `Sds.AppendRunCost` | `src/hiredis/sds.c:376-385` | in any append-only run from the empty string the content is the pieces in order, the allocation is at most twice the length, and below 1,048,603 bytes all bytes ever moved are paid for by the allocation |
| `Sds.PaidForIff` | `src/hiredis/sds.c:194-237` | the bytes moved so far are at most the allocation in every append run of a given final length, if and only if that length is below 1,048,603 |
| `Sds.PaidBelow` | `src/hiredis/sds.c:194-237` | below that limit no run moves more than `Most` of what the last growth asked for |
| `Sds.MostReached` | `src/hiredis/sds.c:204-220` | below 1 MiB some run moves exactly that: each growth comes when the allocation before it is full |
| `Sds.Range` | `src/hiredis/sds.c:712-738` | `sdsrange` keeps the bytes between two inclusive bounds, counted from the end when negative, and clamped |
| `Sds.Bounds` | `src/hiredis/sds.c:712-738` | which bytes lie between two bounds: a negative one counts from the end, one beyond an end is that end, and an end before the start leaves nothing |
| `Sds.Growth` | `src/hiredis/sds.c:194-220` | how much is allocated: nothing while there is room, twice the need below one mebibyte, one mebibyte more from there on |
| `Resp.ReadAllMonotone` | `src/hiredis/read.c:550-598` | more bytes never change the replies already read, nor an error verdict |
| `Resp.ReplyStable` | `src/hiredis/read.c:441-461` | a verdict on a reply, complete or failed, does not depend on the bytes behind it |
| `Resp.EncodeRoundTrip` | `src/hiredis/hiredis.c:524-560` | a reply that fits the limits of the protocol, nested arrays included, is read back from its encoding with nothing lost |
| `Resp.StreamRoundTrip` | `src/hiredis/read.c:550-598` | a stream of encoded replies is read back as exactly those replies, whatever follows |
| `WireForms.AcceptedIff` | `src/hiredis/read.c:260-488` | a reply is accepted, at any level, if and only if one of its written forms is at the front: the type bytes, line ends, digits and limits given as numbers, any two bytes behind a bulk string, two ways to write nil |
| `WireForms.RefusedIff` | `src/hiredis/read.c:260-488` | a stream is refused with an error if and only if something of that kind is at the front: a strange type byte, a line that is no number of 64 bits, a length or count out of range, an array at level 8, or one of these behind complete items of an array |
| `WireForms.StreamForms` | `src/hiredis/read.c:550-598` | every byte string is forms in a row, and then something broken or the beginning of what may still become a form; the replies read are those of the forms |
| `WireForms.NumberIff` | `src/hiredis/read.c:157-218` | the numbers accepted, digit by digit: no needless zero, an optional minus sign, 64 bits |
| `Frames.ItemTracks` | `src/hiredis/read.c:260-363` | an item that ends at the cursor is what the enclosing frames of the stack go on with, for every continuation of the input |
| `Frames.HeaderTracks` | `src/hiredis/read.c:405-426` | opening an array is entering the grammar of its items one level down |
| `Frames.PopTracks` | `src/hiredis/read.c:235-248` | leaving a full frame yields the array of all its items to the frame below |
| `Frames.NextTracks` | `src/hiredis/read.c:249-257` | moving to the next slot is going on with the next item |
| `Frames.EmitsOneMore` | `src/hiredis/read.c:592-596` | a completed reply is the next one the grammar reads from all the bytes |
| `ReplyTree.BuiltRepresents` | `src/hiredis/hiredis.c:63-187` | a tree of reply objects whose slots are all filled stands for one reply value, object by object |
| `ReplyTree.TreeNext` | `src/hiredis/hiredis.c:121-127` | after a slot is filled the array waits at its next slot: slots before it are built, later ones empty |
| `ReplyTree.TreeOpen` | `src/hiredis/hiredis.c:132-155` | a new array hangs in its parent slot with all of its own slots empty |
| `ReplyTree.CloseArray` | `src/hiredis/read.c:241-247` | a full array is the value of all its items and is handed to its parent |
| `ReplyTree.SetSlot` | `src/hiredis/hiredis.c:121-127` | writing through the parent pointer changes exactly one slot of the tree |
| `Reader.SeekNewline` | `src/hiredis/read.c:119-142` | the nested scan finds the first carriage return that a line feed follows |
| `Reader.RedisReader.SetError` | `src/hiredis/read.c:47-69` | an error drops the buffer and the partial tree, and is remembered |
| `Reader.RedisReader.ReadLine` | `src/hiredis/read.c:220-233` | the next complete line, or nothing and no move of the cursor |
| `Reader.RedisReader.CreateStringObject` | `src/hiredis/hiredis.c:100-130` | the object holds the bytes and sits in its parent slot; the assertion on the parent holds |
| `Reader.RedisReader.CreateArrayObject` | `src/hiredis/hiredis.c:132-155` | the array object has that many empty slots and sits in its parent slot |
| `Reader.RedisReader.CreateIntegerObject` | `src/hiredis/hiredis.c:157-172` | the integer object sits in its parent slot |
| `Reader.RedisReader.CreateNilObject` | `src/hiredis/hiredis.c:174-187` | the nil object sits in its parent slot |
| `Reader.RedisReader.MoveToNextTask` | `src/hiredis/read.c:235-258` | the mover leaves every full array and stops at the next empty slot or at the root; its assertions hold and it ends |
| `Reader.RedisReader.ProcessLineItem` | `src/hiredis/read.c:260-299` | a status, error or integer line is processed as the grammar reads it |
| `Reader.RedisReader.ProcessBulkItem` | `src/hiredis/read.c:301-363` | a bulk string is taken only when it is there entirely; the two bytes behind it are skipped unseen |
| `Reader.RedisReader.ProcessMultiBulkItem` | `src/hiredis/read.c:365-439` | an array header opens a frame, gives nil or the empty array at once, and is an error at level 8 |
| `Reader.RedisReader.ProcessItem` | `src/hiredis/read.c:441-488` | one item: the reader still means the same grammar state, and an accepted item uses up bytes |
| `Reader.RedisReader.ProcessItems` | `src/hiredis/read.c:584-590` | the item loop ends, with a complete reply, a wait for bytes, or an error |
| `Reader.RedisReader.Feed` | `src/hiredis/read.c:518-548` | fed bytes are received, unless an error came before |
| `Reader.RedisReader.Discard` | `src/hiredis/read.c:579-586` | dropping consumed bytes after 1024 leaves the unread bytes as they are |
| `Reader.RedisReader.GetReply` | `src/hiredis/read.c:550-598` | each call emits the next reply that the grammar reads from everything received, as a complete tree, or reports that there is none and with which verdict |
| `Commands.BulkLen` | `src/hiredis/hiredis.c:204-206` | `bulklen` is the length of the bulk string of any argument of that size |
| `Commands.CommandSize` | `src/hiredis/hiredis.c:530-537` | the length computed in advance is the length of the encoding |
| `Commands.FormatCommandArgv` | `src/hiredis/hiredis.c:524-560` | the bytes written are the encoding of an array of bulk strings, of exactly the announced length, with a terminator |
| `Commands.WireIsBulks` | `src/hiredis/hiredis.c:541-556` | the count line and one bulk string for each argument are the encoding of the array |
| `WireForms.CommandWritten` | `src/hiredis/hiredis.c:541-556` | the bytes of a command as numbers: the count line, and for each argument its length line, its bytes and a line end |
| `WireForms.CommandOk` | `src/hiredis/hiredis.c:541-556` | these bytes are a form that a reader accepts, for every count below 2^31 |
| `SdsFormat.CatFmt` | `src/hiredis/sds.c:579-665` | `sdscatfmt` appends the expansion of its format if and only if an int can hold the new length; otherwise its int position stops being the end of the string |
| `SdsFormat.FormatExpands` | `src/hiredis/sds.c:579-665` | what a format of literals and directives expands to, whatever follows its terminator: %s up to the NUL, %S whole, %i and %I signed, %u the low 32 bits, %U all 64, any other byte itself |
| `SdsFormat.FormatSdsCommandArgv` | `src/hiredis/hiredis.c:471-513` | the builder stores to a wrong position exactly when the end of the last length line is beyond an int; else the assertion on the length fails exactly when the casts change the length of the encoding; else the encoding with cast lengths is built and the total returned as an int. It returns the command with its length if and only if an int can hold that |
| `SdsFormat.RightIff` | `src/hiredis/hiredis.c:499-512` | the positions fit, the casts change nothing and the int returned is the length, all together, if and only if an int can hold the length |
| `SdsFormat.LastDecides` | `src/hiredis/hiredis.c:499-509` | when the positions fit, only the last argument can be longer than an int: the assertion holds if and only if the cast leaves its length as many digits, and the bytes are right if and only if it is shorter than 2^32 |
| `SdsFormat.LengthsAgreeIff` | `src/hiredis/hiredis.c:499-509` | the encodings with plain and with cast lengths are equally long if and only if the cast leaves each argument length as many digits as it has |
| `SdsFormat.CastLengths` | `src/hiredis/hiredis.c:503-509` | a single argument of 2^32 bytes makes the builder abort; a single one of 2^33 - 1 bytes passes the assertion with a wrong length line |
| `SdsFormat.EncodingsAgreeIff` | `src/hiredis/hiredis.c:471-560` | the two encodings, with plain and with cast lengths, are the same bytes if and only if every argument is shorter than 2^32 |
| `SdsFormat.BuildBoth` | `src/hiredis/hiredis.c:471-560` | for totals up to the largest int both builders return the same bytes and the same length, and the assertion holds |
| `Arguments.WireYields` | `src/hiredis/async.c:578-592` | walking a formatted command with `nextArgument` gives back its argument vector and then stops, with dollar signs, line ends or NUL bytes in the arguments |
| `Template.ScanConversion` | `src/hiredis/hiredis.c:274-352` | the three loops over flags, width and precision and the tests on modifiers and letter find the conversion that the definition finds, or none |
| `Template.CatPrintf` | `src/hiredis/sds.c:501-531` | the buffer that doubles ends with all of the text |
| `Template.Scan` | `src/hiredis/hiredis.c:208-371` | the scanner collects the arguments of the format and adds up the length of their bulk strings, or stops at an invalid directive; a number directive of 14 bytes or more prints nothing and its rest is read as literals |
| `Template.FormatCommand` | `src/hiredis/hiredis.c:208-434` | a format makes the command of its arguments, of the computed length, or is refused: only literal spaces separate, literals, strings, byte strings and numbers join |
| `Template.CountIsTheTemplates` | `src/hiredis/hiredis.c:233-371` | whether a template is valid and how many arguments it makes does not depend on what is interpolated |
| `Template.PlaceholdersPass` | `src/hiredis/hiredis.c:262-278` | interpolated byte strings, empty ones and ones with spaces included, are one argument each |
| `TemplateWords.WordsPass` | `src/hiredis/hiredis.c:233-371` | words joined by single spaces make one argument each, put together from literals, %s up to its terminator, %b, %% and number directives with any flags, width, precision and modifier |
| `TemplateWords.LongNumber` | `src/hiredis/hiredis.c:344-352` | a number directive of 14 bytes or more prints nothing, uses its number up, and is read again from its third byte on |
| `TemplateWords.InvalidDirective` | `src/hiredis/hiredis.c:291-342` | a directive without conversion letter, or with a modifier and no integer letter, makes the template invalid, whatever flags, width and precision it has |
| `TemplateWords.WordsInvalid` | `src/hiredis/hiredis.c:233-371` | words in front of an invalid template do not make it valid |
| `Pipeline.RedisContext.AppendCommand` | `src/hiredis/hiredis.c:893-904` | bytes taken by the socket and bytes still queued are together the encodings of all commands in order |
| `Pipeline.RedisContext.BufferWrite` | `src/hiredis/hiredis.c:817-844` | a partial write moves a prefix from the queue to the socket; `done` exactly when everything is out |
| `Pipeline.RedisContext.SentReads` | `src/hiredis/hiredis.c:817-844` | whatever part has been written, a reader of it has whole commands in order and no error |
| `Commands.WireAllReads` | `src/hiredis/hiredis.c:893-904` | the concatenated encodings read back as the commands |
| `Commands.PrefixReads` | `src/hiredis/hiredis.c:817-844` | any first part of them reads as whole commands in order, without an error |
| `Pipeline.ReadPieces` | `src/hiredis/read.c:518-598` | however the stream is cut and whenever replies are asked for, the reader gives exactly the replies and the verdict of the grammar on all bytes at once |
| `Pipeline.Deliver` | `src/hiredis/read.c:550-598` | commands written in any parts and read in any pieces come out as exactly their argument vectors, in order |
| `Quoting.CatRepr` | `src/hiredis/sds.c:856-879` | `sdscatrepr` appends the quoted form |
| `Quoting.GetToken` | `src/hiredis/sds.c:941-1019` | the pointer-walking lexer finds the token that the recursive definition finds |
| `Quoting.SplitArgs` | `src/hiredis/sds.c:931-1039` | the whole line is split as the definition says, or refused |
| `Quoting.QuoteThenSplit` | `src/hiredis/sds.c:856-1039` | splitting quoted strings joined by spaces gives back the strings: empty ones, NUL bytes, quotes and backslashes included |
| `Lines.LineReads` | `src/hiredis/sds.c:931-1039` | a line of words with blanks around them is split into what they mean: plain bytes, then perhaps a part in double quotes with hex escapes of either case and letter escapes, or in single quotes with escaped apostrophes |
| `Lines.LineRefused` | `src/hiredis/sds.c:931-1039` | a word whose quote is never closed, or closes before a byte that is no blank, makes the whole line no line |
| `Splitting.SplitLen` | `src/hiredis/sds.c:793-840` | the in-place scan cuts at each first occurrence of the separator, and refuses the empty separator |
| `Splitting.JoinSds` | `src/hiredis/sds.c:1078-1087` | `sdsjoinsds` is the join |
| `Splitting.JoinRestores` | `src/hiredis/sds.c:793-840` | joining the tokens with the separator restores the input |
| `Splitting.TokensClean` | `src/hiredis/sds.c:793-830` | no token contains the separator |
| `Splitting.SplitUndoesJoinIff` | `src/hiredis/sds.c:793-840` | splitting undoes joining with a one-byte separator if and only if no part holds it and the parts are not one empty string |
| `PoolThreads.RunInv` | `src/internal/connection_pool.h:190-290` | every interleaving of the steps of N threads keeps the lock, block and counter invariants |
| `PoolThreads.HeldOnce` | `src/internal/connection_pool.h:190-290` | every allocated block is in exactly one place: idle list, spare list, one caller, or one thread in the middle of a call |
| `PoolThreads.InHandOnce` | `src/internal/connection_pool.h:190-290` | no two threads have the same block in hand |
| `PoolThreads.Quiescent` | `src/internal/connection_pool.h:243-266` | when no call is in flight the counter is the idle and the held connections, and all blocks are those and the spare ones |
| `PoolThreads.IdleBound` | `src/internal/connection_pool.h:279-286` | in every reachable state, in the middle of calls too, the idle list is within a positive max_idle |
| `PoolThreads.AllocationBound` | `src/internal/connection_pool.h:194-266` | the counter and the threads past the test are at most max_active - 1 + N; one thread alone never exceeds max_active |
| `PoolThreads.BoundReached` | `src/internal/connection_pool.h:194-243` | the bound max_active - 1 + N is met by some run, for every limit and every number of threads |
| `PoolThreads.PlainBoundIff` | `src/internal/connection_pool.h:194-243` | the counter stays within max_active in every run of N threads if and only if N is at most one |
| `PoolThreads.NoDeadlock` | `src/internal/connection_pool.h:198-289` | in every reachable state with a call in flight some call can go on |
| `PoolThreads.CountIsMultiset` | `src/internal/connection_pool.h:212-222` | counting in a list is multiplicity |
| `PoolRuns.GetReuses` | `src/internal/connection_pool.h:190-222` | for any number of expired items at the back and of too old ones at the front, a thread below the limit that moves alone has moves that end its Get with the first of the others; the evicted and the passed over items are spare, and nothing else has changed |
| `PoolRuns.GetTakesFront` | `src/internal/connection_pool.h:190-222` | with no item expired and a young one at the front it has moves that end its Get with exactly that one: the idle list is shorter by it, and blocks, spare ones and counter are as before |
| `PoolRuns.GetAlwaysTakesFront` | `src/internal/connection_pool.h:190-222` | and so do all its moves: whatever else is decided on the way, five of them, or seven with an idle_timeout, end the Get in that way |
| `PoolRuns.GetAlwaysTakesSpare` | `src/internal/connection_pool.h:223-255` | with nothing idle and something spare all moves of a Get whose initialisation succeeds end with the first spare block, and the counter goes up |
| `PoolRuns.GetNoMemory` | `src/internal/connection_pool.h:233-239` | with nothing idle, nothing spare and no memory all moves of a Get end with nothing changed |
| `PoolRuns.GetMakes` | `src/internal/connection_pool.h:223-255` | when every idle item leaves as expired or too old, or none was there, it gets the first spare block, or a new one when there is none, and the counter goes up; a failed initialisation gives nothing and leaves a spare block |
| `PoolRuns.GetRefused` | `src/internal/connection_pool.h:194-199` | at the limit a Get changes nothing |
| `PoolRuns.PutKeeps` | `src/internal/connection_pool.h:269-290` | a Put of a good connection makes it the first idle item, and past max_idle the last item becomes spare |
| `PoolRuns.PutAlwaysKeeps` | `src/internal/connection_pool.h:276-283` | within max_idle all moves of such a Put do that, whatever else is decided |
| `PoolRuns.PutBroken` | `src/internal/connection_pool.h:269-290` | a Put of a broken one makes it the first spare block, and the counter goes down |
| `IdleList.List.PushFront` | `src/internal/connection_pool.h:69-82` | the item is the first of the doubly linked list, both ways |
| `IdleList.List.PopFront` | `src/internal/connection_pool.h:84-100` | the first item leaves; the links of the others are as they should be |
| `IdleList.List.PopBack` | `src/internal/connection_pool.h:102-119` | the last item leaves |
| `ConnectionPool.Pool.constructor` | `src/internal/connection_pool.h:150-157` | an empty pool is well formed |
| `ConnectionPool.Pool.BackExpired` | `src/internal/connection_pool.h:201-203` | the clock test on the last item speaks for the whole list: when it has not expired, nothing has |
| `ConnectionPool.Pool.EvictExpired` | `src/internal/connection_pool.h:199-210` | exactly the items at the back leave whose return is longer ago than a positive idle_timeout; without one nothing leaves |
| `ConnectionPool.Pool.TryFront` | `src/internal/connection_pool.h:212-221` | an item within its life time is held by the caller, an older one is a spare block |
| `ConnectionPool.Pool.ReuseFront` | `src/internal/connection_pool.h:211-222` | the first item from the front that is young enough is reused; all before it were too old |
| `ConnectionPool.Pool.FromIdle` | `src/internal/connection_pool.h:198-222` | the idle part of a Get, with the times written out: what leaves has been idle for longer than idle_timeout, what stays or is reused has not, and what is passed over at the front is as old as max_life_time allows or older |
| `ConnectionPool.Pool.GetNewInstance` | `src/internal/connection_pool.h:223-255` | a spare block is used when there is one; a failed `malloc` leaves the counter as it was and gives nothing; a connection whose initialisation fails leaves a spare block |
| `ConnectionPool.Pool.Get` | `src/internal/connection_pool.h:190-224` | refusal exactly at the limit, whatever is idle; with a positive idle_timeout nothing stays or is handed out that was returned longer ago, without one nothing expires; what is passed over is older than max_life_time; reuse before a new connection; memory only when nothing is idle or spare |
| `ConnectionPool.Pool.Put` | `src/internal/connection_pool.h:269-290` | a broken connection ends; a good one is first in the list, and past max_idle the least recently returned one ends |
| `ConnectionPool.Pool.Gc` | `src/internal/connection_pool.h:257-267` | the block is the next spare one and the counter goes down |
| `ConnectionPool.Pool.EvictBack` | `src/internal/connection_pool.h:276-289` | the evicted item was returned no later than any that stays |
| `Handles.Done` | `src/connection.cc:32-47` | a connection goes back as reusable exactly when its last reply was no error, or it has had none and no error state; otherwise it ends |
| `Handles.RedisConnection.Assign` | `src/connection.cc:133-139` | assigning any pointer puts the old connection of the handle back, reusable or not as its last reply says, also when it is the same one |
| `Handles.RedisConnection.MoveFrom` | `src/connection.cc:141-144` | the new handle has the connection and the source is empty |
| `Handles.RedisConnection.MoveAssign` | `src/connection.cc:146-150` | the target takes the connection of the source, whatever it held |
| `Handles.RedisConnection.Destroy` | `src/connection.cc:110-115` | the connection of a dying handle is put back, reusable or not as its last reply says |
| `Handles.Moved` | `src/connection.cc:146-150` | a move loses exactly what its target held, also when a handle is moved onto itself |
| `Handles.Replaced` | `src/connection.cc:133-139` | an assignment loses nothing |
| `Handles.DropsLegalIff` | `src/connection.h:60-75` | every handle can go out of scope with a Put of a connection that is out of the pool, if and only if no connection sits in two handles and all of them are held |
| `Handles.PointIff` | `src/connection.h:60-75` | assigning a pointer keeps every later Put legal if and only if it is null, or held by the caller of the pool and in no handle |
| `Handles.SelfAssignment` | `src/connection.cc:133-139` | a handle assigned its own pointer puts the connection back and keeps it: its next Put is of a connection that is not held |
| `Handles.OverwriteIff` | `src/connection.h:73-73` | overwriting the pointer of a handle puts nothing back and keeps every later Put legal if and only if the new one is null, or held and in no other handle; what the handle had is then in none |
| `Handles.Program.Overwrite` | `src/connection.h:73-73` | the same in a program: lawful or not, who owns what afterwards, and one loss for a loaded handle |
| `Handles.Program.PointTo` | `src/connection.cc:133-139` | a pointer assignment in a program, lawful or not: what is put back, who owns what, and whether all later Puts are legal |
| `Handles.Program.KeepRaw` | `src/internal/connection_pool.h:190-224` | a connection got with a raw pointer belongs to no handle |
| `Handles.Program.Fetch` | `src/connection.cc:133-139` | the connection got is new to the program, and exactly the old one of the handle goes back; nothing is got at the limit, and something is whenever the pool cannot fail |
| `Handles.Program.Move` | `src/connection.cc:146-150` | one connection is lost for each move onto a loaded handle |
| `Handles.Program.Drop` | `src/connection.cc:110-115` | the connection of the handle goes back, and only that |
| `Handles.Program.Run` | `src/connection.cc:110-150` | after any run of handle operations who holds what is what the operations come to, one by one, up to the first pointer that is not lawful; until then only held connections are put back, each once for each time it was got, and after it an illegal Put is inevitable when the handles go; without moves onto handles, overwriting and raw Gets nothing is lost |
| `Handles.Program.Finish` | `src/connection.cc:110-150` | when all handles are gone, the connections still counted as active and not idle are one for each overwritten handle and each raw Get, less those that a handle took up again |
| `Hashing.GenHashFunction` | `src/hiredis/dict.c:53-59` | the wrapping loop computes the hash |
| `Hashing.AndIsRemainder` | `src/hiredis/dict.c:118-118` | masking with a power of two less one is the remainder, so every slot is inside the table |
| `Hashing.NextPower` | `src/hiredis/dict.c:306-315` | the least power of two that is no less than the request and 4 |
| `Dict.Dict.Find` | `src/hiredis/dict.c:243-256` | the entry of the key if the map has it, else null |
| `Dict.Dict.MoveEntry` | `src/hiredis/dict.c:116-123` | one relinked entry: it is at the front of its new chain, and no other chain has changed |
| `Dict.Dict.PourOne` | `src/hiredis/dict.c:113-124` | a moved entry is in exactly one of the two tables, in the slot that its hash names |
| `Dict.Dict.Expand` | `src/hiredis/dict.c:88-132` | an expansion is refused only when the entries would not fit, changes none of the map, and reaches its assertion that nothing is left |
| `Dict.Dict.KeyIndex` | `src/hiredis/dict.c:320-337` | -1 exactly when the key is there, else its slot; there is room for one more |
| `Dict.Dict.Add` | `src/hiredis/dict.c:135-154` | the map gains the pair, or is unchanged when the key is there |
| `Dict.Dict.Replace` | `src/hiredis/dict.c:160-179` | the key has the given value, and the result tells whether it is new |
| `Dict.Dict.Unlink` | `src/hiredis/dict.c:194-204` | one assignment to a link takes out one entry |
| `Dict.Dict.Delete` | `src/hiredis/dict.c:182-210` | the map loses the key, one chain loses one entry, and nothing else changes |
| `Dict.CutChain` | `src/hiredis/dict.c:194-198` | a chain whose predecessor link skips an entry is the chain without it |
| `Dict.Perform` | `src/hiredis/dict.c:135-210` | any sequence of additions, replacements and deletions does to the table what it does to a plain finite map |
| `Dict.LastDecides` | `src/hiredis/dict.c:135-210` | whatever has happened before, the last operation on a key decides what is found for it |
| `Dict.OthersStay` | `src/hiredis/dict.c:135-210` | a key that no operation names keeps what it has |
| `DictIterator.Iterator.Next` | `src/hiredis/dict.c:268-286` | the entry that follows those returned, in the order of the chains at the start, or null after the last |
| `DictIterator.Iterator.DeleteReturned` | `src/hiredis/dict.c:278-282` | deleting the entry just returned leaves the rest of the walk as it was |
| `DictIterator.FlatIsContents` | `src/hiredis/dict.c:258-286` | the chains in order list every entry of the map once |
| `DictIterator.FlatAt` | `src/hiredis/dict.c:268-286` | an entry comes after all entries of earlier slots and those before it in its own chain |
| `DictIterator.Walk` | `src/hiredis/dict.c:258-286` | a full walk returns every entry exactly once, whichever of the returned ones are deleted on the way; afterwards a returned key is gone if and only if it was deleted, and nothing else has changed |
| `Callbacks.CallbackList.Push` | `src/hiredis/async.c:227-247` | the callback is the last of the linked queue |
| `Callbacks.CallbackList.Shift` | `src/hiredis/async.c:249-263` | the first callback leaves the queue, or there is none |
| `AsyncHistory.History.Delivered` | `src/hiredis/async.c:425-503` | in a context that never subscribed or monitored, the callbacks run are exactly those of the first accepted commands, once each and in order, the i-th with the i-th reply or with NULL |
| `AsyncHistory.RunsAre` | `src/hiredis/async.c:451-492` | when all callbacks are set each runs once, in order and with its own reply |
| `AsyncHistory.UnsetRunsNothing` | `src/hiredis/async.c:265-272` | a callback that is not set takes its reply and does not run |
| `AsyncHistory.NullsAre` | `src/hiredis/async.c:281-300` | a teardown runs each callback that is set once, with NULL |
| `AsyncHistory.History.AnswerOk` | `src/hiredis/async.c:451-453` | a reply goes to the oldest command that waits |
| `AsyncHistory.History.GiveUpOk` | `src/hiredis/async.c:281-283` | a teardown serves the oldest command that waits |
| `Async.AsyncContext.Command` | `src/hiredis/async.c:597-675` | a closing context refuses; otherwise the bytes are queued and the callback is registered as the kind of command asks: subscribe commands set the subscribed mode, a monitor command its mode, and the callback waits in the queue, or in the other one if the context was subscribed |
| `Async.AsyncContext.Register` | `src/hiredis/async.c:626-667` | regular commands join the queue, commands issued while subscribed join the other one, the monitor command sets its mode and joins the queue, subscriptions enter the dictionary |
| `Async.AsyncContext.Subscribe` | `src/hiredis/async.c:626-647` | the dictionary and the counters after a subscribe command with any names |
| `Spelling.KindIff` | `src/hiredis/async.c:598-667` | what a command is, letter by letter in either case: subscribe and psubscribe with names, unsubscribe and punsubscribe, monitor and pmonitor, the word ended by the argument or by a line end in it; everything else is a regular command |
| `Spelling.NoticeIff` | `src/hiredis/async.c:365-416` | which replies are notices, of channels or patterns, and of which word, letter by letter in either case and up to a NUL; which arrays fail an assertion |
| `Spelling.TakenIff` | `src/hiredis/async.c:384-465` | a reply is taken if and only if somebody waits for it, or it is no error and no assertion stops it, each condition spelled out |
| `Spelling.MessageFinds` | `src/hiredis/async.c:384-400` | a message finds the callback of its channel or pattern; with none there the one of the reply before it stays |
| `Subscriptions.CarryEnters` | `src/hiredis/async.c:629-647` | every named entry has the callback of the command, every other one is as it was |
| `Subscriptions.SendCovered` | `src/hiredis/async.c:637-644` | one more request is covered by one more on the counter |
| `Subscriptions.AcknowledgeCovered` | `src/hiredis/async.c:394-397` | a notice takes one off the counter and one off what is owed |
| `Subscriptions.RemoveCovered` | `src/hiredis/async.c:402-404` | an entry is removed only when nothing is owed for it |
| `Subscriptions.CarryIff` | `src/hiredis/async.c:629-647` | a name that is new to the dictionary gets a counter of one or more, in every subscribe command, if and only if no counter in the dictionary is below zero |
| `Subscriptions.UnowedNoticeUncovers` | `src/hiredis/async.c:630-644` | a notice that was not owed can later leave a name with a counter below what is owed, because the counter carries over between the names of one command |
| `Async.AsyncContext.OwedIsKept` | `src/hiredis/async.c:390-416` | while an acknowledgement is owed for a name, its entry is there with a counter no smaller, and the context is subscribed |
| `Async.AsyncContext.CountNotice` | `src/hiredis/async.c:394-397` | a subscribe notice for a known name takes one off its counter and changes nothing else; any other notice changes nothing |
| `Async.AsyncContext.CountOff` | `src/hiredis/async.c:401-415` | an unsubscribe notice takes its entry out of its dictionary when the counter is zero, else changes neither; the subscribed flag falls only when the server counts none and both dictionaries are empty |
| `Async.AsyncContext.GetSubscribeCallback` | `src/hiredis/async.c:365-423` | which callback a reply finds in a subscribed context; when it finds none, the variable keeps the one of an earlier reply |
| `Async.AsyncContext.RunCallback` | `src/hiredis/async.c:265-272` | whatever the callback does, it is logged once, the queue only grows, and in a closing context nothing is enqueued |
| `Async.AsyncContext.AsyncFree` | `src/hiredis/async.c:275-317` | reached only by a closing context, and once: every callback that is due runs with NULL, regular ones in order, each subscription once; then the disconnect callback has its status |
| `Async.AsyncContext.DrainReplies` | `src/hiredis/async.c:281-283` | the first drain ends, with every queued callback run once |
| `Async.AsyncContext.DrainTable` | `src/hiredis/async.c:290-300` | each subscription has its callback run once, in an order that the hash table decides |
| `Async.AsyncContext.Free` | `src/hiredis/async.c:323-328` | inside a callback only a flag is set; outside the context is gone |
| `Async.AsyncContext.AsyncDisconnect` | `src/hiredis/async.c:331-350` | the assertion that no reply is due holds at every clean disconnect |
| `Async.AsyncContext.Disconnect` | `src/hiredis/async.c:358-363` | outside callbacks, with no reply due, the context is gone; otherwise only a flag is set |
| `Async.AsyncContext.Match` | `src/hiredis/async.c:453-480` | the callback that a reply finds, with the queue served first and in order |
| `Async.AsyncContext.ProcessReply` | `src/hiredis/async.c:451-497` | one reply: whether it has somewhere to go, which callback runs with it and where that one was found; `Stale` exactly when it is left over from an earlier reply |
| `Async.AsyncContext.Round` | `src/hiredis/async.c:428-500` | one round of the loop: one more reply is taken, one more callback is found, and nothing else runs |
| `Async.AsyncContext.RunDry` | `src/hiredis/async.c:429-449` | without a reply the context ends when it was only waiting for that; in monitor mode the callback found last is queued again |
| `Async.AsyncContext.ProcessCallbacks` | `src/hiredis/async.c:425-503` | the replies that the reader holds are taken in order, until there are no more or the context is gone; what runs is what each of them has found, every stale callback is that of the reply before it, and with callbacks that leave the context alone the log and the state are those of `Replay` |
| `Dispatching.TwoMessages` | `src/hiredis/async.c:384-423` | a message for a known channel and one for an unknown channel in one batch run the callback of the first twice |
| `AsyncRuns.StaleRun` | `src/hiredis/async.c:425-503` | a run from a new context that ends with a callback run for a message that is not its own |
| `Listening.NoneStaleIff` | `src/hiredis/async.c:365-423` | in a batch of messages no callback runs for a message that is not its own, if and only if no message for an unknown name comes when the latest known one before it has a callback |
| `Listening.OrderDecides` | `src/hiredis/async.c:365-423` | with a callback at every entry: if and only if no message for an unknown name comes after one for a known name |
| `AsyncRuns.Listen` | `src/hiredis/async.c:425-503` | the same of a new context with one subscription and any batch of messages |
| `Dispatching.TwoNotices` | `src/hiredis/async.c:390-397` | two subscribe notices take two off the counter of the name |
| `Dispatching.UnsubscribeNotice` | `src/hiredis/async.c:384-415` | an unsubscribe notice, for a channel or a pattern: its callback is found, the entry goes exactly at counter zero, and the subscribed mode ends with the last entry when the server counts none |
| `Dispatching.SubscribeNoticeCounts` | `src/hiredis/async.c:390-397` | a subscribe notice, for a channel or a pattern: one off the counter of its entry, whose callback is found |
| `Dispatching.OtherReply` | `src/hiredis/async.c:417-421` | a reply that is no array is for the oldest command issued while subscribed |
| `AsyncRuns.UnsubscribeRun` | `src/hiredis/async.c:365-675` | a run from a new context: subscribe, its notice, the unsubscribe notice; the dictionary is empty, the mode has ended, and the next regular command waits in the queue |
| `AsyncRuns.InvalidRun` | `src/hiredis/async.c:365-675` | a run from a new context: a command issued while subscribed has its callback run with the next reply that is no array |
| `AsyncRuns.UncoveredRun` | `src/hiredis/async.c:390-647` | a run from a new context with one subscribe command, two notices and a second command, after which a name has a counter of zero while its notice is owed |
| `Monitoring.EveryLineIff` | `src/hiredis/async.c:440-449` | in monitor mode every line reaches the callback of the monitor command, in order, if and only if at most one line comes after the first read that completes none |
| `AsyncRuns.Watch` | `src/hiredis/async.c:425-661` | the same of a new context, any monitor command and any reads after it |
| `Async.AsyncContext.HandleRead` | `src/hiredis/async.c:530-549` | a readable event takes all that arrived, or ends the context; an error of before ends it too |
| `Async.AsyncContext.HandleWrite` | `src/hiredis/async.c:551-576` | a writable event sends a prefix of the output, or ends the context |
| `Async.AsyncContext.SentReads` | `src/hiredis/async.c:551-675` | whatever has been sent, with callbacks that issue commands in between, a reader of it has whole commands, the first of those accepted, in order; without subscriptions and monitor mode there is one callback for each command |
| `Async.AsyncContext.OnConnect` | `src/hiredis/async.c:516-523` | the callback for connecting may issue commands, disconnect and free: the context is gone, or alive with the invariants |
| `Async.AsyncContext.HandleConnect` | `src/hiredis/async.c:508-525` | the first event marks the connection or ends the context; a connection still in progress leaves an error behind, which ends the context at the next event |
| `Async.AsyncContext.Drive` | `src/hiredis/async.c:425-675` | over any run of events and user calls, with callbacks that do anything, the invariants hold and a context that never subscribes or monitors keeps its promise of delivery; while it goes on, all replies that its connection brought have been taken; with callbacks that leave it alone all commands of the user that end no subscription have been accepted, in order, with their callbacks |
| `Async.AsyncContext.Step` | `src/hiredis/async.c:425-675` | one event: the replies it brings are taken, and a command of the user is accepted |
| `Async.Session` | `src/hiredis/async.c:105-675` | the same, from a new context on |
| `Async.AsyncContext.IsDelivered` | `src/hiredis/async.c:275-503` | that promise, read off the state: delivered in order and once, the rest queued, and nothing queued after the teardown |
| `AsyncBytes.Value` | `src/hiredis/hiredis.h:88-95` | what a reply object says is the value it stands for, at any depth |
| `AsyncBytes.TakeAll` | `src/hiredis/read.c:550-598` | asking the reader until it has no reply gives what the grammar reads from all bytes so far |
| `AsyncBytes.Arrive` | `src/hiredis/async.c:530-549` | bytes arrive: the replies taken so far are those of the grammar on all the bytes, or the context has ended |
| `AsyncBytes.Life` | `src/hiredis/async.c:425-675` | over a whole life, with the bytes of the connection in any pieces: in a context that never subscribes or monitors the i-th accepted command has its callback run once, in order, with the i-th reply that the grammar reads from all the bytes, or with NULL at a teardown; what has been sent reads as the accepted commands in order; and with callbacks that leave it alone the accepted commands are those that the user has asked for, so that the log is their callbacks with the replies in the stream, one by one |

## Left out

- Sockets, name resolution, polling, timeouts and reconnecting (net.c and the connect functions of hiredis.c): foreign calls; `read` and `write` appear as what they return.
- Failing allocations, freeing of replies and destructors of the pool: memory management; only the `malloc` of the pool may fail here.
- The text that the C library prints for a number: it is a parameter of the argument (`Template.VarArg`); which directive reads it is modelled. A template that ends inside a number directive is outside: the code goes on behind its end.
- Replies to commands issued while subscribed: they are queued, served and torn down as in the code, but which of them a reply belongs to is not claimed.
- What the code does after a connect callback has ended the context, where the model stops; and the disconnect callback: its status is computed, but it does not act on the context.
- The text of error messages: an error is its kind.
- `RedisManager`, the reply accessors, logging and the singleton: thin wrappers and case splits.
- Case mapping, trimming, comparison and character maps of dynamic strings: easy members.
- Buffers of 2^31 bytes and more in the reader, in `sdsrange`, `sdssplitlen`, the hash function and the other builders, and tables near `LONG_MAX`: the code uses `int` indices there. The int position of `sdscatfmt` is modelled; where its stores go once it is wrong is not.
- Sds.Range: its bounds are ints in the code, so the contract is the code's for strings shorter than 2^31 bytes.
- Strings in place: a dynamic string is a value here, so that aliasing of its buffer by two owners is not captured; every operation of the code hands the string back and the old pointer is dead.
- Reader.RedisReader.SetError: the dropped buffer is empty here, where the code has a null pointer that it treats alike.
- Numbers.LongLongToString: the negation of the least integer is taken as exact, where the code relies on the conversion to an unsigned word.
- ConnectionPool.Pool.Get: two readings of the clock are any two times in order; no bound on the time between them is assumed, and times are not negative.
- Handles.Done: the reply state of a connection is a parameter; requests that set it are not modelled.
- PoolThreads.AllocationBound: recency and expiry are not claimed for several threads, because the time of a return is written outside the lock.
- Async.AsyncContext.Command: commands are those that the formatting functions make of an argument vector, read as `Arguments.WireYields` shows; raw bytes from the user are not covered.
- Async.AsyncContext.HandleRead: a read brings complete replies and tells whether the stream is broken after them; `AsyncBytes.Arrive` makes them from bytes, all of one read before the first callback, which is the same because callbacks do not see the reader.
- Async.AsyncContext.DrainTable: the dictionaries are finite maps here, which `Dict.Perform` and `DictIterator.Walk` justify; their order is arbitrary.
- Async.AsyncContext.OwedIsKept: assumes a server that sends no subscribe notice without a request; `AsyncRuns.UncoveredRun` shows why, and `Subscriptions.CarryIff` gives the condition on the dictionary.
- Dict.Dict.Expand: an empty table is an array of length zero where the code has a null pointer.
