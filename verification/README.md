# TokenginX: a verified model of its key-value server

TokenginX is a Redis-compatible key-value server. This project models the parts that make up one working server and
proves what they promise, in Dafny 4.11.

- **The RESP2 codec** (`Bytes`, `Decimal`, `Numerals`, `Resp`, `RespProperties`, `RespGrammar`, `RespCuts`,
  `RespCodec`). `Resp` holds the two pure halves, `Encode` and `Parse`; `RespCodec` holds the parser and the writer as
  the server runs them, objects that consume a reader and append to a buffer, each proved against its half.
  `RespGrammar` states the format on its own, in literal bytes and decimal numerals, and the halves are proved to be
  exactly it. The format is RESP2 as the "Redis serialization protocol
  specification" describes it, sections "Simple strings", "Simple errors", "Integers", "Bulk strings" and "Arrays",
  with the program's own size caps.
- **The sharded, expiring store** (`Fnv`, `TimedMap`, `Sharding`, `ShardedMap`, `TtlManager`). A shard is chosen by
  FNV-1a (draft-eastlake-fnv, section 2) modulo 256. Each lock-held region is one atomic step (`Sharding.Step`); the
  store's methods perform such steps on 256 maps in place.
- **Concurrency** (`Runs`, `Countdown`, `SweepInvisibility`, `Lifecycle`). A `Run` is any interleaving of atomic steps
  of any number of goroutines. KEYS, DBSIZE, FLUSHALL and a cleanup pass, which lock the 256 shards one at a time, are
  increasing positions in a run. `Lifecycle` is the state machine of starting and stopping the cleanup loop.
- **The command interpreter and the connection loop** (`Info`, `Commands`, `CommandProperties`,
  `CommandMeaning`, `InfoMeaning`, `Handler`, `Server`, `Programs`, `SweptSessions`).
  `Commands.Interpret` is a reference interpreter over a single timed map; the handler over the sharded store is proved
  to answer as it does, and the connection loop is proved to turn any byte stream into the replies it gives.
  `CommandMeaning` and `InfoMeaning` state what each command means in words, bytes and numbers of the protocol. `Programs`
  has each command as the atomic steps it takes on the shards, and `SweptSessions` proves what a client may be told
  while the background cleanup sweeps shards between and inside its commands.

Bytes are 8-bit vectors. The clock is an explicit input, in seconds, non-decreasing along a run except that a sweep
may use an earlier reading. The 64-bit sum `now + ttl` is modelled with its wrap-around. Iteration over a map is in an
arbitrary order: methods choose keys freely, and the specifications allow every choice.

## What the proofs found

- On a clean close the parser returns its own end-of-input error instead of `io.EOF`
  (`internal/transport/resp/parser.go:107-110`), so the connection loop sends an error reply after the last real reply
  (`internal/transport/tcp/server.go:208-221`). It does the same when the client goes away between two elements of a
  command or strictly inside a bulk payload, and sends nothing exactly when it goes away anywhere else
  (`Server.CloseReplies`).
- A reply cannot be read off the wire when an unknown command's name contains a line feed, when KEYS lists more than
  `MaxArrayLength` keys, or when INFO quotes an unsupported section whose name is within 26 bytes of `MaxBulkSize`;
  these are the only cases (`CommandProperties.ReplyReadableExactly`). A line feed in place of a type byte spoils the
  final protocol error in the same way (`Server.OutputReadableExactly`).
- Sweeps are invisible to clients if and only if no EXPIRE hits a key that has expired and is still stored
  (`SweepInvisibility.SweepsInvisibleExactly`), and a session beside the cleanup is told what the interpreter says up to
  expired keys (`SweptSessions.SweptSession`).
- When a Start takes effect while a Stop still waits, two cleanup loops can run at once (`Lifecycle.OneLoopExactly`),
  that Stop waits until the next Stop if it is not woken yet (`Lifecycle.OvertakenStopWaits`), and if it has been woken
  the wait group panics, as the documentation of `sync.WaitGroup` warns (`Lifecycle.NoPanicExactly`). Callers can tell:
  the two loops, and the panic, happen in some interleaving of the calls made if and only if such a Start is among them.
- A time to live that takes `now + ttl` past 64 bits means for ever, and TTL still counts down correctly for it.
- `docs/reference/tcp-resp-api.md:207-210` has the meanings of TTL -1 and -2 the wrong way round; the model follows
  `internal/storage/ttl.go:234-241`: -1 for a missing key, -2 for one that never expires.

## Model

| member | source | states |
|---|---|---|
| RespProperties.RoundTrip | internal/transport/resp/parser.go:328-449 | Every value the wire can carry, followed by any bytes, is parsed back to itself with exactly its encoding consumed |
| RespProperties.RoundTripExactly | internal/transport/resp/parser.go:104-300 | The round trip holds if and only if strings have no line feed, integers are 64-bit and both size caps hold at every depth |
| RespProperties.ParseStable | internal/transport/resp/parser.go:104-129 | An outcome other than end of input stays the same, with the same bytes consumed, whatever is appended to the input |
| RespProperties.ParseArrayStable | internal/transport/resp/parser.go:222-264 | The same for the body of an array, through the mutual recursion |
| RespProperties.ParseSuffix | internal/transport/resp/parser.go:104-300 | Whatever the outcome, what is left unread is an unchanged suffix of the input |
| RespProperties.CutInputIsEof | internal/transport/resp/parser.go:176-300 | Every strictly shorter prefix of an accepted input gives an end-of-input error |
| RespProperties.PrefixFree | internal/transport/resp/parser.go:327-442 | No encoding is a proper prefix of another |
| RespProperties.UniqueDecoding | internal/transport/resp/parser.go:412-431 | Two lists of values with the same concatenated encodings are the same list |
| RespProperties.StreamRoundTripExactly | internal/transport/resp/parser.go:104-129 | Reading values until the first failure takes concatenated encodings apart exactly where they were joined, if and only if every value is one the wire can carry |
| RespProperties.ParseAccount | internal/transport/resp/parser.go:197-264 | An accepted tree respects both caps at every depth; three times its nodes plus its bulk bytes, and its re-encoding, are at most the bytes consumed |
| RespProperties.Canonicalisation | internal/transport/resp/parser.go:158-264 | Whatever numerals an accepted input used, its value re-encodes to no more bytes and parses back to the same value |
| RespGrammar.AcceptsExactly | internal/transport/resp/parser.go:104-300 | The parser accepts exactly the byte strings that a grammar in literal bytes and decimal numerals has stand for a value, as that value |
| RespGrammar.FailsExactly | internal/transport/resp/parser.go:104-300 | It fails exactly on the byte strings, and with the reasons, of a grammar of failures: unknown type, line, numeral, length, payload, element, end of input |
| RespGrammar.StreamsExactly | internal/transport/resp/parser.go:104-300 | A stream is read as exactly the values it starts with in the first grammar and the failure after them in the second |
| RespGrammar.WritesExactly | internal/transport/resp/parser.go:328-449 | The bytes written for a value are exactly its type byte, canonical decimal numeral, content and 0x0D 0x0A, the nulls as -1 |
| Resp.Parse | internal/transport/resp/parser.go:104-129 | Every accepted value consumes at least three bytes, the measure by which the mutual recursion terminates on any input |
| Resp.ParseItems | internal/transport/resp/parser.go:251-258 | An accepted array body has exactly the announced number of elements, each paid for with at least three bytes |
| Decimal.FormatThenParse | internal/transport/resp/parser.go:164-167 | Every 64-bit integer is read back from the numeral written for it |
| Decimal.ParseThenFormatShortest | internal/transport/resp/parser.go:374-382 | An accepted numeral, with plus sign or leading zeros, denotes a 64-bit integer whose written numeral is no longer |
| Decimal.ReadingIsLenient | internal/transport/resp/parser.go:164-167 | A plus sign and leading zeros, also behind a minus sign, do not change the integer a numeral denotes, so several inputs parse alike |
| Numerals.ParseIntExactly | internal/transport/resp/parser.go:164-167 | A numeral is read exactly if it is an optional sign and digits 0x30 to 0x39 whose sum, each digit times its power of ten, is a 64-bit integer, as that integer; anything else is refused |
| Numerals.CanonicalIsWritten | internal/transport/resp/parser.go:374-382 | The numeral written is the one that denotes the integer with no plus sign, no leading zero, and a minus sign exactly for a negative one |
| RespCodec.Parser.Parse | internal/transport/resp/parser.go:104-129 | The reader is consumed and the value or error returned exactly as the pure parser says, and it terminates |
| RespCodec.Parser.ParseArray | internal/transport/resp/parser.go:222-264 | The element loop, recursing into Parse, yields the pure parser's array or the first element error |
| RespCodec.Parser.ParseBulkString | internal/transport/resp/parser.go:176-219 | Length checks, null, cap, body and closing CRLF, with each error in its place |
| RespCodec.Parser.ReadLine | internal/transport/resp/parser.go:267-279 | One line up to the first line feed, which a carriage return must precede |
| RespCodec.Parser.ExpectCRLF | internal/transport/resp/parser.go:282-300 | The two bytes CR LF, distinguishing end of input from a wrong byte, consuming the wrong byte |
| RespCodec.Writer.WriteValue | internal/transport/resp/parser.go:328-349 | The buffer grows by exactly the encoding of the value |
| RespCodec.Writer.WriteArray | internal/transport/resp/parser.go:413-431 | The buffer grows by the header and the encodings of the elements in order |
| RespCodec.Writer.WriteBulkString | internal/transport/resp/parser.go:385-399 | The buffer grows by the length line, the content and a closing CRLF |
| Fnv.ShardRecurrence | internal/storage/sharded_map.go:86-91 | The shard index is the 8-bit recurrence from 0xC5: xor the byte, times 0x93 |
| Fnv.KnownHashes | internal/storage/sharded_map.go:86-91 | The hash agrees with the published 32-bit FNV-1a values of the empty text, "a" and "foobar" |
| Fnv.PerfectSpread | internal/storage/sharded_map.go:86-91 | For any prefix and suffix exactly one value of a key byte selects a given shard, and it is the one computed with the inverse 0x9B |
| TimedMap.ExpiresAt | internal/storage/sharded_map.go:121-125 | The stamp is zero exactly for a time to live of zero or less, wrap-around included |
| Sharding.StepKeepsValid | internal/storage/sharded_map.go:86-269 | Every atomic step keeps each key in the shard its hash selects |
| Sharding.StepRefinesFlat | internal/storage/sharded_map.go:115-269 | Every atomic step of the shards is the same operation, with the same answer, on one timed map |
| Sharding.SizesAddUp | internal/storage/sharded_map.go:248-256 | The shard sizes add up to the number of keys of the single map |
| Sharding.ListsAddUp | internal/transport/tcp/handler.go:532-549 | The shards' key lists together list every key of the single map once |
| ShardedMap.ShardedMap.constructor | internal/storage/sharded_map.go:68-81 | A new store is empty and valid |
| ShardedMap.ShardedMap.Set | internal/storage/sharded_map.go:115-134 | An atomic Set step; the single map gains the item with its stamp and nothing else changes |
| ShardedMap.ShardedMap.Get | internal/storage/sharded_map.go:158-177 | The value of a live key; an expired key is removed and not found; nothing else changes |
| ShardedMap.ShardedMap.Delete | internal/storage/sharded_map.go:197-210 | Whether the key was stored, and it is gone |
| ShardedMap.ShardedMap.Exists | internal/storage/sharded_map.go:229-232 | Whether the key is live, with the removal Get performs |
| ShardedMap.ShardedMap.Len | internal/storage/sharded_map.go:248-256 | The number of keys of the single map, expired ones included |
| ShardedMap.ShardedMap.EmptyShard | internal/storage/sharded_map.go:264-268 | The locked region of Clear at one shard is an atomic step that empties it |
| ShardedMap.ShardedMap.Clear | internal/storage/sharded_map.go:263-269 | Without other steps the single map ends empty |
| ShardedMap.ShardedMap.GetAllKeys | internal/storage/sharded_map.go:298-307 | The keys of one shard, each once, in an arbitrary order |
| Runs.MissIsFinal | internal/storage/sharded_map.go:164-176 | After a Get that found nothing, in any interleaving, Get, TTL, Expire and Delete report the key absent until a Set of it |
| Runs.AnyInterleaving | internal/storage/sharded_map.go:115-308 | Any operations in any order at any non-decreasing readings, sweeps at older ones, are those of a run from any store |
| Runs.ClearLeavesOnlyNew | internal/storage/sharded_map.go:263-269 | A key stored when a Clear ends was Set during it, after its own shard was emptied |
| Runs.KeysScan | internal/transport/tcp/handler.go:532-549 | A scan in any interleaving returns no key twice, every key stored throughout, and only keys stored at some moment of it |
| Runs.LenScan | internal/storage/sharded_map.go:248-256 | A count in any interleaving lies between the number of keys stored throughout and the number stored at some moment |
| Countdown.TtlAgreesWithGet | internal/storage/ttl.go:228-251 | At any instant of any run Get finds a key if and only if TTL is -2 or positive |
| Countdown.CountdownAgrees | internal/storage/ttl.go:228-251 | After TTL answered r at t, with nothing writing the key and any sweeps in between, Get at t' succeeds exactly when t' < t + r, and TTL answers r - (t' - t) until then |
| Countdown.RunStamped | internal/storage/ttl.go:280-284 | Every stamp in a run is 64-bit, and negative only if it wrapped around at an earlier clock reading |
| SweepInvisibility.SweepsInvisible | internal/storage/ttl.go:146-189 | Without an Expire of an expired stored key, inserted sweeps change no answer of Set, Get or Expire, of TTL only 0 to -1, of Delete only true to false for an expired key, and take only expired keys out of key lists and sizes |
| SweepInvisibility.RevivalShows | internal/storage/ttl.go:275-286 | Every run with an Expire of an expired stored key has a run with one sweep more, to the end, in which that Expire answers false instead of true |
| SweepInvisibility.SweepsInvisibleExactly | internal/storage/ttl.go:146-189 | Sweeps are invisible in a run if and only if no Expire hits an expired stored key |
| TimedMap.SweptCount | internal/storage/ttl.go:159-189 | A sweep with allowance k leaves exactly max(0, e - k) of e expired keys |
| TimedMap.SweepsConverge | internal/storage/ttl.go:146-189 | A shard swept at any non-decreasing readings, left alone otherwise and whatever the sweeps picked, holds exactly the backlog of its first map: what had expired at the reading before, plus what expired since, minus k, never below none; live items stay |
| TimedMap.BacklogDrains | internal/storage/ttl.go:146-189 | From a reading on after which nothing expires, the backlog falls by exactly k a sweep down to none |
| TimedMap.BacklogAtOnce | internal/storage/ttl.go:159-189 | At one reading n sweeps leave exactly max(0, e - n k) of e expired keys |
| TtlManager.CleanupsConverge | internal/storage/ttl.go:146-156 | Cleanup passes at any non-decreasing readings, left alone otherwise, do so in every shard |
| TtlManager.Allowance | internal/storage/ttl.go:148-151 | The largest number of keys per shard with which 256 shards stay within KeysPerScan, and at least one |
| TtlManager.CleanupPassBound | internal/storage/ttl.go:146-156 | In any interleaving one cleanup pass removes at most max(256, KeysPerScan) keys |
| TtlManager.GatherExpired | internal/storage/ttl.go:164-183 | In whatever iteration order, exactly min(maxKeys, expired) keys are gathered, all expired |
| TtlManager.CleanupShard | internal/storage/ttl.go:159-189 | An atomic sweep step: exactly min(maxKeys, expired) keys go and no live one |
| TtlManager.TTLManager.Cleanup | internal/storage/ttl.go:146-156 | Every shard loses exactly min(max(1, KeysPerScan / 256), its expired keys) keys, all expired at the one clock reading, and nothing else changes |
| TtlManager.TTL | internal/storage/ttl.go:228-251 | -1 for a key not stored, -2 for ever, else the remaining seconds down to 0 |
| TtlManager.Expire | internal/storage/ttl.go:269-287 | Restamps a stored key, expired or not, and says whether there was one |
| TtlManager.TTLManager.Start | internal/storage/ttl.go:80-93 | Afterwards a loop is live and its channel open, whatever interleaving came before, and it is the only loop as long as no Start overtook a Stop |
| TtlManager.TTLManager.StopSignal | internal/storage/ttl.go:102-111 | The locked region of Stop never closes a channel twice, and tells the caller to wait exactly if the manager ran |
| TtlManager.TTLManager.StopWait | internal/storage/ttl.go:113-115 | A Stop at the wait group returns exactly if no loop is live, and then the manager does not run |
| TtlManager.TTLManager.StopWake | internal/storage/ttl.go:113-115 | A woken Stop returns with no loop live, or panics, which it does not as long as no Start overtook a Stop |
| TtlManager.TTLManager.LeaveLoop | internal/storage/ttl.go:125-134 | A loop leaves only over a closed channel, so that of a running manager stays; the last one wakes every sleeping Stop |
| TtlManager.TTLManager.LoopMove | internal/storage/ttl.go:125-139 | A loop's step is a step of the lifecycle invisible to callers; it is blocked exactly when its channel is open and no tick is there, and a tick that wins the select leads to a cleanup |
| TtlManager.TTLManager.LoopStep | internal/storage/ttl.go:131-138 | The same with the cleanup pass: the store changes only in the step after a tick, by one pass |
| TtlManager.TTLManager.TickBranch | internal/storage/ttl.go:135-136 | The branch of the select that a tick wins leaves the store cleaned up by one pass and the loop at the top |
| TtlManager.TTLManager.constructor | internal/storage/ttl.go:59-71 | A new manager is at the beginning of its history: open stop channel, no loop, not running |
| Lifecycle.AlwaysSound | internal/storage/ttl.go:80-139 | In every interleaving each stop channel is closed at most once, the wait group counts the live loops, and a running manager has an open channel and its loop live |
| Lifecycle.OvertakenStopWaits | internal/storage/ttl.go:102-115 | From any moment when the manager runs, no Stop that still waits returns before somebody calls Stop again |
| Lifecycle.LastMove | internal/storage/ttl.go:131-138 | In every interleaving a live loop cleans up only after a tick has won its select, selects on the channel that was the manager's when it came to its select, and is at the top only when new or after a pass |
| Lifecycle.TickCleans | internal/storage/ttl.go:135-138 | Between a tick and the loop's next select there is exactly one cleanup pass, and the loop cannot leave in between |
| Lifecycle.CallsTell | internal/storage/ttl.go:80-115 | Whether the manager runs, how many Stops wait, and whether a Start overtook one, are functions of the calls and returns alone |
| Lifecycle.ApartOrderly | internal/storage/ttl.go:80-139 | As long as no Start took effect while a Stop waited, at most one loop is live, on the current channel, and the wait group has not panicked |
| Lifecycle.SerialisedIsApart | internal/storage/ttl.go:96-101 | Calls made one after another, repeats allowed, are among those |
| Lifecycle.StopLeavesNoLoop | internal/storage/ttl.go:102-115 | With such calls no loop is live when Stop returns, also when there was nothing to stop |
| Lifecycle.StopIsNotStuck | internal/storage/ttl.go:102-139 | With such calls a waiting Stop can return or its loop has a step bringing it closer to leaving |
| Lifecycle.OneLoopExactly | internal/storage/ttl.go:74-93 | For any calls: no interleaving of them, however cut short, has two live loops if and only if no Start takes effect while a Stop waits |
| Lifecycle.NoPanicExactly | internal/storage/ttl.go:113-115 | For any calls: no interleaving of them makes the wait group panic if and only if the same holds |
| Lifecycle.OverlapRunsTwoLoops | internal/storage/ttl.go:102-115 | Any such history that ends running goes on, by a Stop and at once a Start, to two live loops |
| CommandProperties.DelConservation | internal/transport/tcp/handler.go:287-314 | DEL of bulk arguments answers the number of distinct stored keys among them, equal to the drop in size, and removes exactly them |
| CommandProperties.DelStopsAtNonBulk | internal/transport/tcp/handler.go:296-302 | DEL with its first non-bulk argument at position j is an error and exactly the keys of the first j arguments are gone |
| CommandProperties.ExistsAccounting | internal/transport/tcp/handler.go:320-347 | On a clock that does not go back, EXISTS counts the positions, with repeats, whose key is live, and removes exactly the argument keys found expired |
| CommandProperties.ExpiredArgsAtOnce | internal/transport/tcp/handler.go:328-341 | At one clock reading the keys EXISTS removes are the expired ones among its arguments |
| CommandProperties.SetThenGet | internal/transport/tcp/handler.go:228-281 | After SET k v EX s at t, GET answers v and TTL counts down exactly until t + s, for ever if s is 0 |
| CommandProperties.ExpireThenGet | internal/transport/tcp/handler.go:381-415 | EXPIRE answers 1 exactly for a stored key, expired or not, and GET then finds its value until t + s |
| CommandMeaning.AnyCase | internal/transport/tcp/handler.go:93-93 | The letter case of a command's name makes no difference |
| CommandMeaning.NotACommand | internal/transport/tcp/handler.go:68-91 | What is no array, or an empty one, or starts with no bulk string, is refused and changes nothing |
| CommandMeaning.UnknownMeans | internal/transport/tcp/handler.go:121-126 | A command of none of the twelve names is refused, with its name in capitals, and changes nothing |
| CommandMeaning.PingMeans | internal/transport/tcp/handler.go:133-152 | PING answers PONG, or its first argument, a null one as empty |
| CommandMeaning.EchoMeans | internal/transport/tcp/handler.go:158-177 | ECHO answers its one argument |
| CommandMeaning.GetMeans | internal/transport/tcp/handler.go:183-222 | GET answers the value of a stored key whose deadline has not come; else null, and the key is gone |
| CommandMeaning.TtlMeans | internal/transport/tcp/handler.go:353-375 | TTL answers -1 for no key, -2 for no deadline, 0 for one that has come, else the seconds to it |
| CommandMeaning.SetMeans | internal/transport/tcp/handler.go:228-281 | SET of two or more arguments stores the value under the deadline that an option EX in any letter case asks for, under none without it, and is refused exactly if EX has no non-negative 64-bit numeral or an argument is missing |
| CommandMeaning.SetThenAsk | internal/transport/tcp/handler.go:228-281 | After any SET that is not refused GET and TTL answer the value and the seconds left, for ever and -2 without EX, and no other key has changed |
| CommandMeaning.ExpireMeans | internal/transport/tcp/handler.go:381-415 | EXPIRE gives a stored key a new deadline and answers 1, answers 0 for no key, and is refused exactly if it has no non-negative 64-bit numeral |
| CommandMeaning.DelMeans | internal/transport/tcp/handler.go:287-314 | DEL removes the keys up to its first argument that is no bulk string, and answers how many distinct ones were stored if there is none |
| CommandMeaning.ExistsMeans | internal/transport/tcp/handler.go:320-347 | EXISTS at one reading answers the number of argument positions whose key is stored with no deadline come, and drops the others |
| CommandMeaning.KeysMeans | internal/transport/tcp/handler.go:462-503 | KEYS takes the pattern * and no other |
| CommandMeaning.ListingMeans | internal/transport/tcp/handler.go:486-502 | Its answer is an array of as many bulk strings as there are stored keys, each key among them |
| CommandMeaning.DbsizeMeans | internal/transport/tcp/handler.go:421-435 | DBSIZE answers the number of stored keys |
| CommandMeaning.FlushallMeans | internal/transport/tcp/handler.go:441-455 | FLUSHALL leaves nothing stored |
| CommandMeaning.FaultTexts | internal/transport/tcp/handler.go:121-126 | Every error text starts with ERR; an unknown name, and an unknown type byte as a character in UTF-8, stand at its end |
| CommandMeaning.FaultTextsDiffer | internal/transport/tcp/handler.go:68-126 | Different reasons for an error reply have different texts |
| InfoMeaning.InfoMeans | internal/transport/tcp/handler.go:509-589 | INFO tells the sections asked for in any letter case, all without an argument, character by character and with the number of keys in decimal, or quotes the unsupported section in small letters |
| CommandProperties.InterpretKeepsFit | internal/transport/tcp/handler.go:66-127 | Commands off the wire keep every stored key and value within the bulk size cap |
| CommandProperties.ReplyReadableExactly | internal/transport/tcp/handler.go:66-127 | The reply to a command off the wire can be read back if and only if the command is not unknown with a line feed in its name, lists no more than MaxArrayLength keys, and asks INFO for no unsupported section with a name within 26 bytes of MaxBulkSize |
| Info.InfoTextFits | internal/transport/tcp/handler.go:552-589 | The INFO text fits a bulk string if and only if the section is supported or its name leaves room for the notice around it |
| CommandProperties.FaultReadable | internal/transport/tcp/handler.go:121-126 | An error reply is one readable line if and only if it quotes no line feed |
| Handler.CommandHandler.HandleCommand | internal/transport/tcp/handler.go:66-127 | Reply and store after the command are those of the flat interpreter on the single timed map, KEYS up to order |
| Handler.CommandHandler.HandleGet | internal/transport/tcp/handler.go:183-222 | GET over the shards is GET of the interpreter, lazy deletion included |
| Handler.CommandHandler.HandleSet | internal/transport/tcp/handler.go:228-281 | SET over the shards is SET of the interpreter, option and error cases included |
| Handler.CommandHandler.HandleDel | internal/transport/tcp/handler.go:287-314 | The loop over the arguments deletes and counts as the interpreter does |
| Handler.CommandHandler.HandleExists | internal/transport/tcp/handler.go:320-347 | The loop over the arguments looks up and counts as the interpreter does |
| Handler.CommandHandler.HandleTTL | internal/transport/tcp/handler.go:353-375 | TTL over the shards is TTL of the interpreter |
| Handler.CommandHandler.HandleExpire | internal/transport/tcp/handler.go:381-415 | EXPIRE over the shards is EXPIRE of the interpreter |
| Handler.CommandHandler.HandleKeys | internal/transport/tcp/handler.go:462-503 | KEYS lists the keys of the single map, each once, in some order, and accepts only the pattern * |
| Handler.CommandHandler.GetAllKeys | internal/transport/tcp/handler.go:532-549 | The collected list has every key of the single map once, and its length is the map's size |
| Handler.CommandHandler.HandleDBSize | internal/transport/tcp/handler.go:421-435 | DBSIZE answers the size of the single map |
| Handler.CommandHandler.HandleFlushAll | internal/transport/tcp/handler.go:441-455 | FLUSHALL empties the single map, and with arguments changes nothing |
| Handler.CommandHandler.HandleInfo | internal/transport/tcp/handler.go:509-527 | INFO over the shards is INFO of the interpreter |
| Handler.CommandHandler.BuildInfoString | internal/transport/tcp/handler.go:552-589 | The parts put together, with the keys counted for each, are the text for the size of the single map |
| Programs.ProgramIsCommand | internal/transport/tcp/handler.go:183-503 | The atomic store operations of a command, carried out on the 256 shards with nothing in between, give the reply and the store of the interpreter on the single timed map |
| SweptSessions.WithoutSweeps | internal/storage/ttl.go:146-189 | Every run is one without sweeps, of the same other operations at the same times, that has had sweeps added |
| SweptSessions.CommandSwept | internal/transport/tcp/handler.go:183-503 | With sweeps before and inside a command the reply is the interpreter's, but that TTL may say -1 for 0, and DEL, DBSIZE and KEYS may leave out keys that have expired, and only those |
| SweptSessions.SweptSession | cmd/server/main.go:69-77 | While the cleanup runs, whatever shards it sweeps and when, each reply of a session is what the previous row allows for the interpreter's store, provided no EXPIRE hits an expired stored key |
| Server.Server.HandleConnection | internal/transport/tcp/server.go:196-237 | Any input is taken apart into commands, each handled as the flat interpreter says, and the output is the encodings of the replies in order and of the farewell |
| Server.SessionExists | internal/transport/tcp/server.go:196-237 | From any store and with any clock readings every list of commands has a session that handles all of it, so what is said of sessions is never empty |
| Server.OutputReadableExactly | internal/transport/tcp/server.go:208-231 | The bytes written on any input are read back as exactly the replies and the farewell if and only if every command is readable and the input does not end at a line feed in place of a type byte |
| Server.InputDecides | internal/transport/tcp/server.go:205-231 | On any input the commands handled are the values it starts with in the grammar, and after their replies one error reply is written for any failure but io.EOF |
| Server.Pipelining | internal/transport/tcp/server.go:196-237 | n encoded commands are handled as exactly those n and get exactly n replies in order, each the flat interpreter's, readable as such if and only if all commands are; closing then draws one error reply more |
| RespCuts.CutValue | internal/transport/resp/parser.go:104-300 | An encoding cut anywhere short of its end is read as exactly the error of the place: the parser's own at the start of a value, an unexpected EOF strictly inside a bulk payload, io.EOF elsewhere |
| RespCuts.CutStream | internal/transport/resp/parser.go:104-300 | A stream of encodings cut anywhere is read as its whole values and that error |
| RespCuts.WholeFits | internal/transport/resp/parser.go:104-129 | The whole values before the cut are those that fit before it, and one more would not |
| Server.CloseReplies | internal/transport/tcp/server.go:205-221 | A client that closes after any number of bytes gets the replies to the commands sent whole, and then nothing if and only if it stopped neither where a value would start nor strictly inside a bulk payload, else one error reply |

## Left out

- Sockets, read deadlines, logging, the accept loop and signal handling: the reader is a finite byte sequence that then ends, and writes do not fail.
- Server start and stop, and the counters of connections and active clients: bookkeeping around the operating system.
- Error texts: each reason has a text of its own in the model, without line feeds of its own, in place of the program's wording; what a text quotes of the input is modelled.
- Case folding beyond ASCII: `strings.ToUpper` and `strings.ToLower` also map other letters, some of them onto ASCII ones.
- The instants inside one call of the wait group: counting down to zero and waking the waiters is one step.
- Values other than byte strings: SET stores only the bulk it parsed.
- Values whose type byte is none of the five, or that carry both a null flag and a payload: the datatype has no such values.
- Aliasing of stored items: an item is a value in the map of its shard, which EXPIRE replaces where the program updates the item through its pointer.
- Capacity hints, memory use and the allocation of a bulk string before its bytes arrive.
- GetShardForIndex for an invalid index, IsRunning and GetStats: nothing in the modelled commands uses them.
- SweptSessions.SweptSession: does not cover INFO, whose counts differ by expired keys as those of DBSIZE do.
- Several connections at once on the command level: concurrency is modelled on the atomic steps of the store, which all connections share, and for one connection beside the cleanup.
