# Oppex SDK verification

A Dafny model of the two hand-written cores of the Oppex incident SDKs, with proofs.

**The C++ JSON reader, writer and wire codec.** The grammar of RFC 8259 sections 2 to 7
is stated on its own as syntax trees with the text each spells and the value each denotes
(`JsonGrammar`). The recursive-descent parser of `cpp/src/json.cpp` is a class that moves a
position over the text (`JsonParser.Parser`). Each of its methods computes a function on the
unread suffix (`JsonReader`), and that reader is proved sound (`JsonSoundness`) and complete
(`JsonCompleteness`) for the grammar, for all texts. A text has at most one syntax tree
(`JsonUnambiguity`). What the grammar and the reader share, the alphabet and the meaning of an
escape, is fixed by statements in plain octets (`JsonEscapes`), and the number production by an
automaton (`RfcNumber`). The string escaper, the request printer
and the envelope reader stand on top of it (`JsonWriter`, `JsonNumber`, `WireCodec`,
`ResponseCodec`); `Utf8` holds the encoder, the decoder of RFC 3629 section 4 and a
recogniser of valid text.

**The bounded drop-oldest dispatchers and what surrounds them.** Four dispatchers keep the
same promise in four ways, and each is a step relation with one step per critical section,
channel operation or event-loop turn. Rust and Ruby share the queue of `Pool`, whose tasks
are named by their position in the order of acceptance, and the threads of `Crew`; they
differ in when they notify (`RustDispatcher`, `RubyDispatcher`). `RustState` is the guarded
state as a class whose methods perform the actions of `Pool`. `GoDispatcher` is a buffered
channel with receives between the three selects of a submit. `NodeDispatcher` is a
re-entrant pump over an array with a head index, as a class. `Retry` and `RustClient` are the
retry loop and every interleaving of deliveries with a close; `JavaDropLogger` is the
lock-free drop counter. All statements range over every input, every run or every reachable
state. Capacities and worker counts are at least 1.

Where the code and its documentation differ, the model follows the code:

- `cpp/src/json.hpp:56-58` says that invalid UTF-8 is replaced on output. It is written raw;
  a literal is UTF-8 exactly when its content is (`JsonWriter.EscapedIsUtf8Iff`).
- Number tokens are wider than RFC 8259 section 6: `01`, `1.` and `.5` pass. The grammar has
  the wider token, and a document is RFC 8259 text exactly when it is UTF-8 and every number
  token in it is an RFC 8259 number (`JsonTheorems.WhenADocumentIsRfcText`).
- `golang/oppex/dispatcher.go:89-90` speaks of a worker that refilled the slot. Workers only
  receive, so that branch is dead (`GoDispatcher.SecondSendAlwaysLands`).

Six properties one might expect do not hold of the code, and each has its exact condition:

- Rust: a close can leave queued work with every thread asleep until the deadline, because a
  late notification wakes the closer. It can happen exactly when the close begins while work
  is queued and every worker sleeps (`RustDispatcher.WhenACloseCanStrandWork`).
- Go: the newest `capacity` tasks are safe from eviction exactly when the capacity is 1
  (`GoDispatcher.NewestSurviveIffCapacityIsOne`).
- Go: the number a close reports as abandoned is right exactly when as many tasks start
  between the count and the cancel as were received but not started at the count; it can be
  too small or too large (`GoDispatcher.WhenTheReportIsRight`, `ReportCanMissATask`,
  `ReportCanCountTooMuch`).
- C++: only RFC 8259 text is accepted, with the condition above.
- Java: the interval start keeps its pace in every run exactly when the clock never shows
  less than -1 (`JavaDropLogger.PacedIffClockIsNotBelow`).
- A queue of capacity 0 counts drops that evict nothing (`Pool.DropsAreEvictions`).

A double is left open: a number value keeps its decimal, and what a decimal rounds to is a
parameter of which only the exactness of integers up to 2^53 is assumed.

## Model

| member | source | states |
|---|---|---|
| Utf8.SurrogatePairsAreABijection | cpp/src/json.cpp:160-166 | the surrogate arithmetic maps high and low pairs one to one onto U+10000 to U+10FFFF |
| Utf8.ShiftsAndMasks | cpp/src/json.cpp:192-208 | the shifts and masks of the encoder are the quotients and remainders the model computes with |
| Utf8.DecodeEncode | cpp/src/json.cpp:192-208 | the RFC 3629 decoder gives back every scalar value from its encoding, whatever follows |
| Utf8.EncodeDecode | cpp/src/json.cpp:192-208 | encoding what was decoded gives the octets back, so no scalar value has a second spelling |
| Utf8.RecogniserIsTheGrammar | cpp/src/json.cpp:192-208 | an octet-at-a-time recogniser accepts exactly the sequences of RFC 3629 characters |
| Utf8.AppendKeepsUtf8 | cpp/src/json.cpp:192-208 | appending an encoded scalar value keeps valid text valid |
| JsonGrammar.LastOf | cpp/src/json.cpp:233 | the value of a name is that of its last member |
| JsonGrammar.LastBindingsExtend | cpp/src/json.cpp:233 | one more member rebinds its name and nothing else |
| JsonReader.AssignKeepsLast | cpp/src/json.cpp:218-241 | assigning members one by one in order leaves each name with its last value |
| JsonSoundness.FromCharsSound | cpp/src/json.cpp:81-87 | what the number reader took is the text of the decimal it returned, followed by what it left |
| JsonSoundness.NumberSound | cpp/src/json.cpp:66-88 | an accepted number token derives its value in the grammar |
| JsonSoundness.CharsSound | cpp/src/json.cpp:90-190 | an accepted string body is a row of raw octets and escapes whose meaning is what was returned, pairs and lone surrogates included |
| JsonSoundness.ValueSound | cpp/src/json.cpp:34-56 | an accepted value derives its result in the grammar, within the depth limit, and the rest is untouched |
| JsonSoundness.ParseSound | cpp/src/json.cpp:19-282 | every accepted text derives its result in the grammar, nested at most 64 deep |
| JsonCompleteness.FromCharsComplete | cpp/src/json.cpp:81-87 | every decimal of the grammar is read back from its text, all of it |
| JsonCompleteness.NumberComplete | cpp/src/json.cpp:66-88 | every number of the grammar is read to its decimal when no number octet follows |
| JsonCompleteness.CharsComplete | cpp/src/json.cpp:90-190 | every row of raw octets and escapes is read to its meaning, and reading stops behind the quote |
| JsonCompleteness.PairComplete | cpp/src/json.cpp:160-166 | an escaped surrogate pair is read to the encoding of the code point it stands for |
| JsonCompleteness.LoneComplete | cpp/src/json.cpp:166-172 | an unpaired escape is read to its code point or to U+FFFD, and what follows is read again |
| JsonCompleteness.ValueComplete | cpp/src/json.cpp:34-56 | every value of the grammar within the depth limit is read to what it denotes |
| JsonCompleteness.ParseComplete | cpp/src/json.cpp:19-282 | every document of the grammar nested at most 64 deep is accepted with its value |
| JsonTheorems.ParseIsTheGrammar | cpp/src/json.cpp:19-282 | a text is accepted with a value if and only if the grammar derives that value from it within the depth limit |
| JsonUnambiguity.TreeUnique | cpp/src/json.cpp:34-56 | a text starts with at most one value, whatever its nesting, tree for tree |
| JsonUnambiguity.GrammarIsUnambiguous | cpp/src/json.cpp:19-282 | a text is the text of at most one document, blanks, escapes, digits and duplicate members included |
| JsonTheorems.ParseOfADocument | cpp/src/json.cpp:30-37 | a document is read to its value when every value sits at depth 64 or less, and refused otherwise |
| JsonTheorems.WhenADocumentIsRfcText | cpp/src/json.cpp:66-116 | a document is RFC 8259 text if and only if it is UTF-8 and every number token in it is an RFC 8259 number |
| JsonTheorems.LeadingZeroIsAccepted | cpp/src/json.cpp:66-88 | "01" is accepted and is not RFC 8259 text |
| JsonTheorems.ParseKeepsUtf8 | cpp/src/json.cpp:90-208 | from a valid UTF-8 document every key and string returned is valid UTF-8 |
| JsonParser.Parser.constructor | cpp/src/json.cpp:17 | a new parser has the whole text unread |
| JsonParser.Parser.ParseDocument | cpp/src/json.cpp:19-27 | computes what the reader says of the whole text |
| JsonParser.Parser.ParseValue | cpp/src/json.cpp:34-56 | returns and leaves unread what the reader says, at depth 65 at most, terminating on the unread octets |
| JsonParser.Parser.ParseLiteral | cpp/src/json.cpp:58-64 | consumes the literal exactly when it is ahead |
| JsonParser.Parser.ParseNumber | cpp/src/json.cpp:66-88 | takes the maximal run of number octets and accepts it if all of it is a decimal |
| JsonParser.Parser.SkipNumberBytes | cpp/src/json.cpp:71-76 | moves behind the run of number octets |
| JsonParser.Parser.ParseString | cpp/src/json.cpp:90-116 | returns the octets of the string literal ahead, or fails as the reader does |
| JsonParser.Parser.ParseChar | cpp/src/json.cpp:97-114 | one turn of the string loop leaves the result of the whole string unchanged and moves forward |
| JsonParser.Parser.ParseEscape | cpp/src/json.cpp:118-149 | appends what the escape denotes |
| JsonParser.Parser.ParseUnicodeEscape | cpp/src/json.cpp:151-176 | appends the encoded code point of one escape or of a pair, going back when the second is not a low surrogate |
| JsonParser.Parser.ParseHexQuad | cpp/src/json.cpp:178-190 | consumes four hex digits and returns their value, or moves nothing |
| JsonParser.Parser.ParseObject | cpp/src/json.cpp:210-216 | reads an empty object or goes on to the members |
| JsonParser.Parser.ParseMembers | cpp/src/json.cpp:218-241 | the member loop returns the map the reader builds, last name winning |
| JsonParser.Parser.ParseName | cpp/src/json.cpp:219-228 | reads blanks, a name, a colon and blanks |
| JsonParser.Parser.ParseArray | cpp/src/json.cpp:244-250 | reads an empty array or goes on to the items |
| JsonParser.Parser.ParseItems | cpp/src/json.cpp:252-266 | the item loop returns the sequence the reader builds |
| JsonParser.Parser.ParseItem | cpp/src/json.cpp:253-257 | skips blanks and reads one value |
| JsonParser.Parser.Consume | cpp/src/json.cpp:269-275 | takes one octet exactly when it is the expected one |
| JsonParser.Parser.SkipWhitespace | cpp/src/json.cpp:277-282 | moves behind the blanks |
| JsonParser.ParseText | cpp/src/json.cpp:314 | the parser as a whole computes the reader's result |
| JsonEscapes.Alphabet | cpp/src/json.cpp:38-82 | blanks, digits, structural characters, escape letters and literals are these octets |
| JsonEscapes.HexQuadReadsItsNumber | cpp/src/json.cpp:178-190 | four hexadecimal digits in either case are read to the number whose digits they are |
| JsonEscapes.EscapeDenotes | cpp/src/json.cpp:151-176 | a string of one escape is the UTF-8 of its code point, or EF BF BD for a surrogate |
| JsonEscapes.PairDenotes | cpp/src/json.cpp:160-172 | a high surrogate with a low one is U+10000 and the two ten-bit halves; with anything else it is EF BF BD and what follows |
| JsonEscapes.ShortEscapeDenotes | cpp/src/json.cpp:124-143 | the eight short escapes stand for their octets |
| JsonEscapes.NoOtherShortEscape | cpp/src/json.cpp:146-148 | no other letter makes an escape |
| JsonEscapes.RawOctet | cpp/src/json.cpp:99-110 | an octet stands for itself unless it is a control octet, a quote or a backslash, which are refused |
| JsonEscapes.NestedArrays | cpp/src/json.cpp:32-37 | n nested arrays are accepted if and only if n is at most 65 |
| RfcNumber.RfcDecimalIsTheProduction | cpp/src/json.cpp:66-88 | of the decimals accepted, those called RFC 8259 numbers are those its production derives, octet by octet |
| JsonWriter.SpellingMeans | cpp/src/json.cpp:318-352 | the spelling of a byte string denotes it, for all 256 octets |
| JsonWriter.OctetIsWritten | cpp/src/json.cpp:318-351 | how each of the 256 octets is written |
| JsonWriter.EscapedOctets | cpp/src/json.cpp:316-354 | a literal is its octets written one by one between quotes |
| JsonWriter.EscapedReadsBack | cpp/src/json.cpp:316-354 | reading a written literal yields the bytes and stops right behind the closing quote, whatever follows |
| JsonWriter.EscapedIsPrefixFree | cpp/src/json.cpp:316-354 | no literal is a prefix of another and none stands for two byte strings |
| JsonWriter.EscapedIsUtf8Iff | cpp/src/json.cpp:341-349 | a literal is valid UTF-8 if and only if the bytes it stands for are |
| JsonWriter.InvalidOctetIsWrittenRaw | cpp/src/json.cpp:341-349 | the octet FF is written as it is |
| JsonWriter.AppendEscaped | cpp/src/json.cpp:316-354 | appends the literal of the value, which reads back as the value |
| JsonNumber.Digits | cpp/src/wire_codec.cpp:56-59 | printed digits denote the number printed |
| JsonNumber.IntegerDecimal | cpp/src/wire_codec.cpp:56-59 | a printed integer is a decimal of the grammar with that value |
| JsonNumber.MovingThePoint | cpp/src/json.cpp:81-87 | moving the point one digit to the right multiplies the value by ten |
| JsonNumber.WithoutAFraction | cpp/src/json.cpp:81-87 | digits alone denote the integer they spell, and a final point adds nothing |
| JsonNumber.StepOfTheExponent | cpp/src/json.cpp:81-87 | one more in the exponent multiplies or divides by ten, by its sign, and zero does nothing |
| JsonNumber.Truncate | cpp/src/json.cpp:309 | the conversion to an integer drops the fraction, towards zero |
| JsonNumber.IntegersReadBack | cpp/src/json.cpp:300-310 | however an integer up to 2^53 is written, it reads back as itself |
| JsonNumber.IntegerDecimalIsInjective | cpp/src/wire_codec.cpp:56-59 | different integers are printed differently |
| WireCodec.AppendField | cpp/src/wire_codec.cpp:37-45 | appends a comma unless first, the escaped name and a colon |
| WireCodec.AppendString | cpp/src/wire_codec.cpp:107-110 | appends one string field to the fields written |
| WireCodec.AppendOptionalString | cpp/src/wire_codec.cpp:47-54 | appends one field if the value is present and nothing otherwise |
| WireCodec.AppendNumber | cpp/src/wire_codec.cpp:56-59 | appends one number field to the fields written |
| WireCodec.SerializeRequest | cpp/src/wire_codec.cpp:99-121 | the printed payload parses to the object of the request |
| WireCodec.SerializeThenParse | cpp/src/wire_codec.cpp:99-121 | parsing the payload of any request and key gives the object of the request |
| WireCodec.RequestObjectNames | cpp/src/wire_codec.cpp:105-117 | a name is a key of that object if and only if it is one of the five fixed names or that of a present optional field, all written out |
| WireCodec.RequestObjectMembers | cpp/src/wire_codec.cpp:105-117 | under its own name every string is the original and every number has its value, and an absent optional is absent |
| WireCodec.RequestIntegersReadBack | cpp/src/wire_codec.cpp:111-113 | "severity", "priority" and "srcTimestamp" read back equal up to 2^53 |
| WireCodec.PayloadDeterminesRequest | cpp/src/wire_codec.cpp:99-121 | two payloads are equal if and only if the resolved keys and all other fields are |
| ResponseCodec.ToInt32 | cpp/src/wire_codec.cpp:147 | the conversion to int keeps the value in range and its residue otherwise |
| ResponseCodec.ParseResponse | cpp/src/wire_codec.cpp:123-161 | fills the response as the decoding says, over a blank, malformed or object body |
| ResponseCodec.OnlyFourNamesMatter | cpp/src/wire_codec.cpp:140-159 | the result depends only on the status and the last members under the four names |
| ResponseCodec.TextsOfTheResponse | cpp/src/wire_codec.cpp:150-159 | the message and the incident id are the texts of the last "message" and "data" members, and absent otherwise |
| ResponseCodec.SuccessOfTheResponse | cpp/src/wire_codec.cpp:125-144 | success is the last "success" member if that is a boolean, else whether the status is 200 to 299 |
| ResponseCodec.CodeOfTheResponse | cpp/src/wire_codec.cpp:126-149 | the code is the last "code" member if that is an integer fitting an int, and the status if there is no number |
| ResponseCodec.OtherCodesOfTheResponse | cpp/src/wire_codec.cpp:145-149 | another number loses its fraction and then all but 32 bits, or falls back to the status beyond 64 bits |
| ResponseCodec.BlankBodies | cpp/src/wire_codec.cpp:124-129 | a body of white space leaves a response of the status alone |
| ResponseCodec.OtherMembersAreIgnored | cpp/src/wire_codec.cpp:140-159 | a member under another name changes nothing, wherever it is put |
| ResponseCodec.RefusedBodiesLookAlike | cpp/src/wire_codec.cpp:127-138 | a non-blank body is refused if and only if it is no object document, with an error of the status alone |
| Pool.StepKeepsInv | rust/src/internal/dispatcher.rs:95-211 | every critical section keeps the invariant of the queue, the fates and the counts |
| Pool.EveryTaskHasOneFate | rust/src/internal/dispatcher.rs:95-211 | in every reachable state each accepted task is in exactly one of queued, running, finished, evicted, abandoned |
| Pool.Bookkeeping | rust/src/internal/dispatcher.rs:95-211 | the queue is the newest run of the acceptance order, at most `capacity` long; running tasks and evictions are counted exactly |
| Pool.StartsAreFifo | rust/src/internal/dispatcher.rs:171-174 | tasks start in the order they were accepted |
| Pool.NewestAreNeverEvicted | rust/src/internal/dispatcher.rs:101-107 | an evicted task never started, and the newest `capacity` tasks are never evicted |
| Pool.EvictionDistance | rust/src/internal/dispatcher.rs:101-107 | a task is evicted if and only if it is still queued when the `capacity`-th task after it is accepted |
| Pool.DropsAreEvictions | rust/src/internal/dispatcher.rs:101-106 | drops counted are evictions made if and only if the capacity is at least 1 |
| Pool.NothingStartsAfterGivingUp | rust/src/internal/dispatcher.rs:195-211 | once the drain gave up nothing is accepted, started or evicted in any continuation |
| Pool.GivingUp | rust/src/internal/dispatcher.rs:195-211 | the abandoned tasks are those accepted and neither started nor evicted; none when the drain did not time out |
| Pool.OnlyTheRunningFinish | rust/src/internal/dispatcher.rs:195-211 | once the drain gave up, only tasks running then can still finish |
| Pool.SecondCloseIsIdle | rust/src/internal/dispatcher.rs:121-128 | closing again changes nothing |
| RustState.RateLimitedDropLogger.RecordDrop | rust/src/internal/drop_logger.rs:39-52 | reports exactly when the interval has elapsed, and no drop is lost or counted twice |
| RustState.Shared.constructor | rust/src/internal/dispatcher.rs:65-75 | a new dispatcher is the initial pool |
| RustState.Shared.EvictOldest | rust/src/internal/dispatcher.rs:101-104 | the oldest task leaves and its drop is recorded |
| RustState.Shared.Submit | rust/src/internal/dispatcher.rs:95-109 | the locked part of a submit is the pool's submit, with the new task last |
| RustState.Shared.Take | rust/src/internal/dispatcher.rs:169-174 | a worker takes the oldest task, which is the pool's take |
| RustState.Shared.Finish | rust/src/internal/dispatcher.rs:187 | the end of a task is the pool's finish |
| RustState.Shared.BeginClose | rust/src/internal/dispatcher.rs:122-128 | only the first close goes on |
| RustState.Shared.GiveUp | rust/src/internal/dispatcher.rs:207-210 | returns how many tasks were abandoned: accepted less started less evicted |
| Crew.TakeKeepsCrew | rust/src/internal/dispatcher.rs:168-183 | taking a task puts it with one worker and keeps the running count |
| Crew.FinishKeepsCrew | rust/src/internal/dispatcher.rs:185-189 | finishing a task frees its worker and keeps the running count |
| RustDispatcher.MoveKeepsInv | rust/src/internal/dispatcher.rs:95-211 | every step of submitters, workers and closer keeps the invariant of the whole machine |
| RustDispatcher.NoLostWakeUpWhileAccepting | rust/src/internal/dispatcher.rs:95-116 | while accepting, queued work has an awake worker or a submit that still has to notify |
| RustDispatcher.SleepersHaveAReason | rust/src/internal/dispatcher.rs:185-206 | a closer asleep un-notified has work to wait for or a worker about to notify it; after the drain no worker stays asleep |
| RustDispatcher.NobodyIsStuck | rust/src/internal/dispatcher.rs:166-211 | every worker that has not left, and the closer until it is done, has a move of its own |
| RustDispatcher.EverythingCanFinish | rust/src/internal/dispatcher.rs:121-211 | from every reachable state before the drain is over all accepted work not evicted can finish and a close end without abandoning any |
| RustDispatcher.PathIsAPoolExecution | rust/src/internal/dispatcher.rs:95-211 | the pools along any stretch of a run make a run of the pool, so what is proved of those holds here |
| RustDispatcher.CloseIsFinal | rust/src/internal/dispatcher.rs:121-211 | once the drain gave up, in every continuation nothing starts and at most one task a worker still finishes |
| RustDispatcher.WhenACloseCanStrandWork | rust/src/internal/dispatcher.rs:121-131 | a close can leave queued work with every thread asleep if and only if it begins with work queued and all workers asleep |
| RustDispatcher.OnlyTimeMovesStranded | rust/src/internal/dispatcher.rs:195-206 | from there only the deadline or a spurious wake-up moves anything |
| RustDispatcher.StrandingHappens | rust/src/internal/dispatcher.rs:109-131 | a run that gets there, for every capacity and two workers |
| RubyDispatcher.MoveKeepsInv | ruby/lib/oppex_sdk/internal/async_dispatcher.rb:41-128 | every critical section keeps the invariant of the whole machine |
| RubyDispatcher.RunKeepsInv | ruby/lib/oppex_sdk/internal/async_dispatcher.rb:41-128 | the invariant holds at every point of every run |
| RubyDispatcher.NoLostWakeUp | ruby/lib/oppex_sdk/internal/async_dispatcher.rb:88-128 | an un-notified sleeping worker means an empty queue and an open drain, an un-notified closer means work |
| RubyDispatcher.PoolOfARunIsReachable | ruby/lib/oppex_sdk/internal/async_dispatcher.rb:41-128 | all that is proved of reachable pools holds of the Ruby dispatcher |
| RubyDispatcher.NobodyIsStuck | ruby/lib/oppex_sdk/internal/async_dispatcher.rb:88-128 | every worker that has not left, and the closer until it is done, has a move of its own |
| RubyDispatcher.EverythingCanFinish | ruby/lib/oppex_sdk/internal/async_dispatcher.rb:63-128 | from every point of a run before the drain is over all accepted work not evicted can finish and a close end without abandoning any |
| RubyDispatcher.PathIsAPoolExecution | ruby/lib/oppex_sdk/internal/async_dispatcher.rb:41-128 | the pools along any stretch of a run make a run of the pool |
| RubyDispatcher.CloseIsFinal | ruby/lib/oppex_sdk/internal/async_dispatcher.rb:63-128 | once the drain gave up, in every continuation nothing starts and at most one task a worker still finishes |
| GoDispatcher.MoveKeepsChannel | golang/oppex/dispatcher.go:68-109 | the channel is never overfull, closes once under the mutex, and has room after an eviction |
| GoDispatcher.MoveKeepsOrder | golang/oppex/dispatcher.go:53-94 | the queue stays the newest run of the acceptance order; the rest was received or evicted, in order |
| GoDispatcher.MoveKeepsWorkers | golang/oppex/dispatcher.go:53-61 | every received task is in one hand, running, finished or discarded |
| GoDispatcher.MoveKeepsInv | golang/oppex/dispatcher.go:53-126 | every channel operation, mutex section and worker step keeps the invariant |
| GoDispatcher.SecondSendAlwaysLands | golang/oppex/dispatcher.go:75-93 | the last send always finds room, every drop is an eviction, no send meets a closed channel, which closes at most once |
| GoDispatcher.NobodyIsStuck | golang/oppex/dispatcher.go:53-109 | every worker that has not left has a move of its own unless it waits for a task, and so has whoever holds the mutex |
| GoDispatcher.DrainCanEnd | golang/oppex/dispatcher.go:101-119 | from every reachable state in which close waits, the workers can finish all accepted work not evicted and the close end in time |
| GoDispatcher.EveryTaskHasOneFate | golang/oppex/dispatcher.go:53-126 | each accepted task is in exactly one of queued, in a hand, running, finished, evicted, discarded |
| GoDispatcher.ReceivesAreFifo | golang/oppex/dispatcher.go:55-60 | tasks leave the queue in the order they were accepted |
| GoDispatcher.DrainedCloseLosesNothing | golang/oppex/dispatcher.go:111-119 | after a drain in time every accepted task finished or was evicted |
| GoDispatcher.WhenTheReportIsRight | golang/oppex/dispatcher.go:120-124 | what never starts is what is queued or in a hand at the cancel; the number reported is right if and only if that equals the queue it counted, that is, if as many tasks started in between as were in a hand at the count; the loss exceeds it by at most one task a worker |
| GoDispatcher.NothingStartsOnceCancelled | golang/oppex/dispatcher.go:55-58 | once the context is cancelled no task starts in any continuation |
| GoDispatcher.EvictionDistance | golang/oppex/dispatcher.go:81-85 | over any steps between the first select and the eviction, the evicted task is `capacity` places before the newcomer if and only if no worker received one |
| GoDispatcher.EvictsTheNext | golang/oppex/dispatcher.go:75-93 | a receive between the first two selects makes the submit evict the next task |
| GoDispatcher.NewestSurviveIffCapacityIsOne | golang/oppex/dispatcher.go:75-93 | the newest `capacity` tasks are safe from eviction if and only if the capacity is 1 |
| GoDispatcher.HandIsNotCounted | golang/oppex/dispatcher.go:120-122 | a task in a hand when time runs out can be lost without being counted |
| GoDispatcher.ReportCanMissATask | golang/oppex/dispatcher.go:120-124 | a run that reports nothing abandoned and loses a task |
| GoDispatcher.CountedTaskStarts | golang/oppex/dispatcher.go:120-122 | a counted task can be received and started before the cancel |
| GoDispatcher.ReportCanCountTooMuch | golang/oppex/dispatcher.go:120-124 | a run that reports one task abandoned and loses none |
| NodeDispatcher.ClearHead | node/src/internal/async/AsyncDispatcher.ts:43-45 | clearing the head slot and moving on takes the first live task |
| NodeDispatcher.Compact | node/src/internal/async/AsyncDispatcher.ts:50-54 | slicing off the dead prefix keeps the live tasks |
| NodeDispatcher.Push | node/src/internal/async/AsyncDispatcher.ts:79 | pushing adds a live task at the end |
| NodeDispatcher.TurnKeepsInv | node/src/internal/async/AsyncDispatcher.ts:68-136 | every turn of the event loop keeps the invariant, however tasks submit tasks and close |
| NodeDispatcher.EveryRunIsWorkConserving | node/src/internal/async/AsyncDispatcher.ts:68-108 | over every run at most `maxConcurrency` run, a queued task means all slots are taken, a waiter means work, and every accepted task is exactly one of begun, queued, dropped and forced out |
| NodeDispatcher.EveryRunIsFifo | node/src/internal/async/AsyncDispatcher.ts:68-101 | over every run tasks begin in the order of acceptance, the queue is the newest run of that order, and a dropped task has at least `capacity` newer ones |
| NodeDispatcher.NewcomerIsKept | node/src/internal/async/AsyncDispatcher.ts:76-79 | a submit with every slot taken queues the newcomer last and drops exactly the oldest task of a full queue |
| NodeDispatcher.CallsInOrder | node/src/internal/async/AsyncDispatcher.ts:82-84 | what a task calls before it suspends is answered in order |
| NodeDispatcher.AnswerAccepts | node/src/internal/async/AsyncDispatcher.ts:68-80 | an open dispatcher accepts what it is given next in order, a closed one nothing |
| NodeDispatcher.FirstCloseWaits | node/src/internal/async/AsyncDispatcher.ts:103-127 | the first close waits unless the dispatcher is idle |
| NodeDispatcher.OnlyIdleReleases | node/src/internal/async/AsyncDispatcher.ts:95-99 | a turn releases waiters only when the dispatcher is idle after it, and then all |
| NodeDispatcher.ClosedOnlyDrains | node/src/internal/async/AsyncDispatcher.ts:114-136 | after close nothing is accepted, queued or dropped, and an idle dispatcher stays idle |
| NodeDispatcher.AsyncDispatcher.constructor | node/src/internal/async/AsyncDispatcher.ts:27-33 | a new dispatcher is idle |
| NodeDispatcher.AsyncDispatcher.QueueLength | node/src/internal/async/AsyncDispatcher.ts:35-37 | the array length less the head is the number of live tasks |
| NodeDispatcher.AsyncDispatcher.Dequeue | node/src/internal/async/AsyncDispatcher.ts:39-57 | pops the first live task; slots copied by compaction never exceed dequeues and drops |
| NodeDispatcher.AsyncDispatcher.DropOldest | node/src/internal/async/AsyncDispatcher.ts:59-63 | removes the first live task |
| NodeDispatcher.AsyncDispatcher.Submit | node/src/internal/async/AsyncDispatcher.ts:68-80 | runs the task, queues it or refuses it, with all it submits or closes on the way |
| NodeDispatcher.AsyncDispatcher.Run | node/src/internal/async/AsyncDispatcher.ts:82-84 | starts a task and handles the submits and closes it makes before it suspends |
| NodeDispatcher.AsyncDispatcher.Free | node/src/internal/async/AsyncDispatcher.ts:91-92 | a settled task frees its slot and the oldest queued task leaves the queue |
| NodeDispatcher.AsyncDispatcher.Settle | node/src/internal/async/AsyncDispatcher.ts:90-100 | hands the slot to the oldest queued task, or releases every waiter when idle |
| NodeDispatcher.AsyncDispatcher.WaitUntilIdle | node/src/internal/async/AsyncDispatcher.ts:103-108 | resolves at once exactly when idle |
| NodeDispatcher.AsyncDispatcher.StartClose | node/src/internal/async/AsyncDispatcher.ts:114-127 | only the first close waits |
| NodeDispatcher.AsyncDispatcher.EndClose | node/src/internal/async/AsyncDispatcher.ts:130-135 | forces out and counts whatever is still queued |
| Retry.ExecuteWithRetry | rust/src/internal/retry.rs:27-54 | ends as a delivery may end: at most one attempt more than delays, after a prefix of the waits, with the value, the failure annotated when it never reached a status line, or the interruption |
| Retry.StopsAtTheFirstReason | rust/src/internal/retry.rs:36-52 | every attempt but the last failed retryably with its wait uncut, and the last succeeded, failed for good, was the last allowed or had its wait cut |
| Retry.WhatAnEndingIs | rust/src/internal/retry.rs:36-73 | which attempts are followed by another, which delays are waited, and what is reported, messages written out |
| Retry.Numeral | rust/src/internal/retry.rs:66 | the attempts are written in decimal without leading zeros |
| Retry.EndingIsDetermined | rust/src/internal/retry.rs:27-73 | what the attempts and waits meet decides the attempts, the waits and the result |
| Retry.Exhausted | rust/src/internal/retry.rs:40-50 | all attempts are used if and only if every earlier one failed retryably and no wait was cut |
| RustClient.RunKeepsInv | rust/src/client.rs:104-163 | at every point of every run of callers, workers and closers every delivery is somewhere in its retry loop |
| RustClient.EveryDeliveryRetries | rust/src/internal/retry.rs:27-54 | in every run every delivery respects the attempt and wait limits and ends as the retry loop may end; only a signal interrupts and only a closed dispatcher refuses |
| RustClient.UnsignalledDelivery | rust/src/internal/retry.rs:35-53 | without a signal a delivery stopped at its first success, its first failure that is not retryable, or its last attempt |
| RustClient.WaitGoesOn | rust/src/internal/interrupt.rs:39-49 | a wait goes on to the next attempt unless the interrupt is signalled |
| RustClient.FailureBacksOff | rust/src/internal/retry.rs:39-50 | a retryable failure with a delay left enters the wait of that delay |
| RustClient.DispatcherAccepts | rust/src/client.rs:135-147 | an open dispatcher queues what it is given, a closed one refuses it |
| RustClient.NobodyIsStuck | rust/src/client.rs:135-163 | every delivery that is not over, dropped or refused has a move of its own |
| RustClient.CloseInThreeSteps | rust/src/client.rs:106-114 | a close shuts out callers, signals and closes the dispatcher, and touches no delivery |
| RustClient.AttemptsAfterTheSignal | rust/src/client.rs:104-114 | after the signal a delivery in an attempt or backoff starts none, and any other at most one |
| RustClient.ClosedStaysClosed | rust/src/client.rs:106-121 | a second close changes nothing and a closed client lets no caller in |
| JavaDropLogger.MoveKeepsInv | java/sdk-http/src/main/java/dev/oppex/sdk/internal/async/RateLimitedDropLogger.java:35-46 | every atomic operation of any call keeps the accounts, the readings and the pace |
| JavaDropLogger.EveryDropIsReportedOnce | java/sdk-http/src/main/java/dev/oppex/sdk/internal/async/RateLimitedDropLogger.java:35-46 | increments equal the held count plus the counts taken, and every count taken is reported once or about to be |
| JavaDropLogger.ReportsAreRateLimited | java/sdk-http/src/main/java/dev/oppex/sdk/internal/async/RateLimitedDropLogger.java:37-45 | reports times interval is at most the final less the first interval start |
| JavaDropLogger.SwapMovesForward | java/sdk-http/src/main/java/dev/oppex/sdk/internal/async/RateLimitedDropLogger.java:39 | a swap moves the start forward by the interval if and only if the subtraction did not overflow |
| JavaDropLogger.NoSwapComesBetween | java/sdk-http/src/main/java/dev/oppex/sdk/internal/async/RateLimitedDropLogger.java:38-39 | a swap that finds the value it read finds that no other swap came between |
| JavaDropLogger.PacedIffClockIsNotBelow | java/sdk-http/src/main/java/dev/oppex/sdk/internal/async/RateLimitedDropLogger.java:37-39 | every swap of every run moves the start forward by the interval if and only if the clock never shows less than -1 |
| JavaDropLogger.WinnerReports | java/sdk-http/src/main/java/dev/oppex/sdk/internal/async/RateLimitedDropLogger.java:39-45 | a call that wins the swap takes all dropped so far and reports it |
| JavaDropLogger.NobodyIsStuck | java/sdk-http/src/main/java/dev/oppex/sdk/internal/async/RateLimitedDropLogger.java:35-46 | every call that is not done has a move of its own, whatever the clock shows |

## Left out

- Floating point: which double a non-integer or large decimal rounds to, range errors of
  `from_chars`, and the edge at exactly 2^63 in `AsInt` stay open behind a rounding parameter.
- `Normalize` and the other field checks: each is a comparison and a throw, and the codec
  theorems hold for every request, checked or not.
- The order in which the keys of a parsed object are stored: a map has none.
- HTTP transports, timeouts, TLS, environment lookups and log output: foreign code. An attempt
  is an outcome, a deadline is a step that may happen at any time, a clock reading any number.
- Tasks that panic or throw out of a dispatcher: callers wrap them. In Rust one would leave
  the count of running tasks raised.
- The C++, Python, .NET and Java dispatchers: the C++ one repeats Rust, the others rest on
  library queues.
- The mutexes, condition variables and channels themselves: a critical section or channel
  operation is one step, and wake-ups may be spurious.
- The Rust threads, the Rust client, the Ruby and Go dispatchers and the Java logger are values
  that a step relation moves, not objects, because their point is the interleaving; the Rust
  state and the Node dispatcher are classes.
- The interrupt of `rust/src/internal/interrupt.rs` is the flag of `RustClient.Client`: a wait
  ends either with the flag up or with the flag seen down.
- RustClient.AttemptsAfterTheSignal: the dispatcher's queue appears only as deliveries that are
  queued, picked up, dropped or refused; its order and capacity are those of `Pool`.
- Go with capacity 0, where a send is a handover and evictions cannot happen.
- The order of the members in a payload: a parsed object has none.
- Node tasks that submit or close after their first suspension do so as turns of their own.
- Node with capacity 0, which records drops of empty slots.
- Node's rate-limited drop log, and a bound on the array under drops alone, which there is not.
- JavaDropLogger.EveryDropIsReportedOnce: the counter is unbounded, so a wrap after 2^63 drops
  between two reports is not modelled.
- Liveness: no fairness is assumed. That work can finish from every state is proved, not that it does.
