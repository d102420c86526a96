# Jeed, verified

Jeed is a market-data feed handler. It takes exchange feeds (KRX datagrams, FIX 4.4 streams, crypto venues' JSON)
and publishes fixed records into a shared-memory ring. This project models the parts of it where correctness is an
argument rather than an inspection, and proves that argument in Dafny 4.11:

- **The ring** (`RingProtocol`, `RingPush`, `RingDelivery`, `RingTornRead`, `RingAbandoned`, `Ring`). Producer and
  consumer are a two-party step system in which every load and store is a step and a record moves word by word. What
  every step keeps gives, over all interleavings, that no record is handed over torn, that what is handed over under a
  number is the record pushed under it, that nothing readable is skipped, and that what was received and what was
  reported lost add up. The classes in `Ring` update memory in place and carry the state of the step
  system they have reached.
- **Word-wide decimal parsing** (`Words`, `SwarLanes`, `DecimalCheck`, `SwarFold`, `DecimalFold`, `IntegerParser`,
  `PointSqueeze`, `PointTables`, `FixedExtractor`, `Hhmmss`, `KrxClock`). The lane arguments (borrows, masks, folds)
  are by induction on the number of lanes; the literal constants of each width are instances. The readers built from
  them agree with a digit-by-digit loop, or fail to in ways listed below.
- **Decimal text** (`Bytes`, `DecimalText`, `FixDecimal`, `DynamicExtractor`, `PlainDecimal`,
  `Notation`). A text denotes a rational; a reader is right when its count of units is that rational, by cross
  multiplication. `Notation` writes every decimal text out from its parts and says what is answered to each.
- **The JSON scanners and the book decoders** (`JsonScan`, `JsonGrammar`, `CryptoLevels`, `LevelGrammar`, `OkxBook`,
  `OkxDelta`). Each scanner is a loop proved against a function from position to position, on any bytes; the grammar of
  JSON texts then says where each one stops on every well-formed text. An instrument's price and size readers are
  function values, so the results on levels and diffs hold for every reader; `CryptoLevels.NewInstrument` is the one
  the program builds.
- **FIX** (`Placement`, `FixFields`, `FixFrame`, `FrameBuffer`, `FixRefusal`, `Calendar`, `UtcTime`, `FixWriter`,
  `FixEmitter`, `MarketData`, `MarketMessage`, `FixSession`). Printer and parser undo each other, framing does not
  depend on how the stream was cut and has one answer to every damaged message, the calendar is a bijection in every
  era, market data says what its header's and its entries' bytes say, and sequence numbers are accounted for.

`Wrappers` holds `Option` and `Result`. `dafny verify dfyconfig.toml` verifies everything.

Machine integers are written out where their width matters: wrapping subtraction and multiplication, the `i64` view
of a word (`AsI64`), saturating and checked sums.

## Where the code and its documentation part

Each of these is a lemma below, with the exact condition under which the documented behaviour holds.

- A fill also writes the sequence word: `push` copies the whole record, and a fresh header carries 0 there. Record 0
  can therefore be handed over torn; no record is if and only if the consumer attached after the first publication
  (`RingTornRead.NeverTornIff`, which holds of a producer that only pushes).
- A slot claimed and abandoned has already destroyed the record a lap before it. A consumer owed that record is
  answered `Lagged(0)` until the producer publishes again, or, if the fill left the record's own number in the sequence
  word, as a fresh header does for record 0, is handed the ruin. `RingDelivery.DrainReachesCursorIff` is the exact
  condition in every reachable state; both outcomes are reached from every fresh segment
  (`RingAbandoned.StuckIsReached`, `RingAbandoned.ForgedIsReached`).
- The word check lets `'/'` and `':'` through in every lane but the first (`DecimalCheck.CheckAcceptsIff`,
  `FixedExtractor.ColonReadsAsTen`), and the pair check used for times bounds bytes from above only
  (`Hhmmss.PairsAcceptIff`): six spaces are midnight (`Hhmmss.SixIff`, `SpacesAreMidnight`).
- `HHMMSSCC` is documented to give total seconds. The folds weigh every unit sixty times too much and take the
  hundredths for seconds, so only all zeros do (`Hhmmss.EightDigitsRead`).
- The point squeeze is documented to require a point at the index; the test refuses when the *mirrored* byte is a
  point (`PointSqueeze.SqueezeDrops`).
- The `u64` reader wraps on some inputs of twenty digits behind any number of zeros, for the callers that ask for an
  `i64` limit too (`IntegerParser.TwentyDigitsIff`, `TwentyDigitsWrap`), and takes more than twenty zeros for an empty
  field; `IntegerParser.ReadsDigitsIff` is the exact condition over all digit texts.
- A field whose unused head reaches past its point gets a point index that has wrapped; the readers still read the
  digits behind the point if the padded word has room, and refuse them otherwise (`FixedExtractor.BuiltIsValid`,
  `FixedExtractor.ReadsBehindThePoint`).
- A leading `'+'` on a KRX price is refused although the reader's comment allows it (`FixedExtractor.PlusIsRefused`).
- The exact decimal reader wraps when integer digits and decimals come to more than eighteen and the count leaves
  `i64` (`DynamicExtractor.ReadsExactlyIff`, `NineteenDigitsWrap`).
- The nearest-day assembly fails from the last KST midnight of the `i64` range on (`KrxClock.RecoversNearIff`,
  `KrxClock.RecoversAtOnceIff`).
- Framing waits at every cut only for a BeginString of at most sixteen bytes and a BodyLength of at most six
  characters (`FixFrame.WaitsAtEveryCutIff`).
- A walk over a JSON object ends at the first member whose key is empty (`JsonGrammar.ObjectIsWalked`).
- An object that never closes is documented to be no object. It is cut out all the same when the data end in a closing
  brace, whatever that brace closes (`JsonScan.CutIff`, `JsonScan.UnclosedIsCut`).
- A diff is documented to decode in any member order. A side that is no array ends the walk, so it reads as an empty
  side when it comes last and makes the diff incomplete when it comes earlier. `OkxDelta.AllOrdersAlikeIff` says exactly
  for which members the order matters; with sides that are arrays it never does.
- A market-data group that does not begin with its delimiter is documented to decode. It is refused
  (`MarketMessage.OutsideEntryIff`).
- A date of the right shape that the calendar does not have, the thirty-first of a shorter month, is read as a day of
  the next month (`UtcTime.ReadAsItselfIff`).
- A MsgSeqNum of twenty digits is printed and not read back (`FixEmitter.CarriesItsNumberIff`).
- FIX decimals with no integer digits (`.5`) or no fraction digits (`1.`) are accepted
  (`FixDecimal.ReadsExactlyIff`).

## Model

| member | source | states |
|---|---|---|
| `RingProtocol.StepKeepsShape` | crates/jeed-shm/src/producer.rs:137-230 | every step of either party keeps the cursor equal to the next sequence, at most one slot open, and the consumer at or before the cursor |
| `RingProtocol.StepKeepsResident` | crates/jeed-shm/src/ring.rs:15-32 | every step keeps each published, not yet overwritten sequence word for word in slot `s mod capacity` |
| `RingProtocol.StepKeepsRetired` | crates/jeed-shm/src/ring.rs:15-32 | a slot that has been claimed for a later lap never shows the old sequence again, unless a fill forges it |
| `RingProtocol.StepKeepsCopy` | crates/jeed-shm/src/consumer.rs:166-186 | the words copied so far belong to the wanted record unless the copy has been overtaken |
| `RingProtocol.StepKeepsDeliveries` | crates/jeed-shm/src/consumer.rs:188-195 | what is handed over under a sequence is the record committed under it |
| `RingProtocol.LastLapIsResident` | crates/jeed-shm/src/ring.rs:56-58 | in every reachable state each sequence of the last lap sits intact in its slot, save `next - capacity` once its slot has been claimed |
| `RingProtocol.NoTornRead` | crates/jeed-shm/src/consumer.rs:148-195 | in every interleaving in which no fill writes the wanted value into the sequence word, a record handed over is word for word the record committed under that sequence |
| `RingTornRead.TornAtZero` | crates/jeed-shm/src/producer.rs:155-159 | for every capacity an interleaving in which the producer does nothing but push fresh records and record 0 is handed over torn |
| `RingTornRead.NeverTornIff` | crates/jeed-shm/src/consumer.rs:65-94 | with fills that leave zero in the sequence word, and with nothing but pushes, no record is ever handed over torn if and only if the consumer attached after the first record was published |
| `RingDelivery.ReceivedPlusLost` | crates/jeed-shm/src/consumer.rs:148-204 | in every reachable state records received plus the sum of `Lagged` counts is the next sequence minus the attach cursor |
| `RingDelivery.DeliveredInOrder` | crates/jeed-shm/src/consumer.rs:193-195 | the sequences handed over strictly increase |
| `RingDelivery.SkippedLiesBehind` | crates/jeed-shm/src/consumer.rs:159-165 | in every reachable state every sequence skipped lay more than a lap behind the cursor, so nothing readable is skipped |
| `RingDelivery.SkippedWasUnreadable` | crates/jeed-shm/src/consumer.rs:159-165 | and its slot shows another sequence, unless a fill has written that one there |
| `RingDelivery.CallIsReceived` | crates/jeed-shm/src/consumer.rs:148-204 | the loads of one undisturbed call, run step by step, amount to one closed-form outcome |
| `RingDelivery.DrainsInOrder` | crates/jeed-shm/src/consumer.rs:148-204 | with no slot claimed, draining gives at most one lag notice, then every remaining record in order, then empty |
| `RingDelivery.StuckForever` | crates/jeed-shm/src/consumer.rs:200-204 | a consumer owed the one record an abandoned claim destroyed is answered `Lagged(0)` by every call while the producer stands still |
| `RingDelivery.DrainReachesCursorIff` | crates/jeed-shm/src/producer.rs:137-147 | in every reachable state the consumer reaches the cursor exactly when no claimed slot has destroyed a record it is owed, or the slot shows that record's sequence all the same |
| `RingDelivery.ForgedIsTakenIn` | crates/jeed-shm/src/consumer.rs:166-195 | in the latter case it is handed what is left of the record, under the record's number |
| `RingDelivery.UnforgedDrainIff` | crates/jeed-shm/src/producer.rs:137-147 | with no fill storing that sequence, destroying an owed record is the exact obstacle |
| `RingAbandoned.DroppedFillSticks` | crates/jeed-shm/src/producer.rs:129-147 | wherever a consumer is exactly a lap behind, a fill that is dropped leaves it stuck on `Lagged(0)` |
| `RingAbandoned.StuckIsReached` | crates/jeed-shm/src/producer.rs:129-147 | for every capacity that state is reached from a fresh segment: attach, one lap published, one fill dropped; no number of calls then reaches the cursor |
| `RingAbandoned.ForgedIsReached` | crates/jeed-shm/src/producer.rs:129-147 | and so is the other: record 0 owed, its slot half rewritten with a fresh header and dropped; the next call hands the ruin over as record 0 |
| `Ring.RingProducer.Slot` | crates/jeed-shm/src/producer.rs:137-147 | claiming marks slot `next mod capacity` in progress, the mask and the remainder agreeing |
| `Ring.RingProducer.Commit` | crates/jeed-shm/src/producer.rs:218-229 | stamps the sequence, moves the cursor, and returns consecutive numbers; the memory takes the stamp and the publish step |
| `Ring.RingProducer.Push` | crates/jeed-shm/src/producer.rs:155-159 | the memory holds the record as it was pushed, word for word, its number in word 1, and no other slot changes; in the step system it is the claim, one store a word, the stamp and the publication |
| `RingPush.PushPublishes` | crates/jeed-shm/src/producer.rs:155-159 | from every idle state with a sequence left to give, a push publishes exactly the record pushed, stamped with its sequence |
| `RingPush.PublishedIsPushed` | crates/jeed-shm/src/producer.rs:155-159 | however a consumer's loads fall among the pushes, what is published under `s` is the `s`-th record pushed |
| `RingPush.DeliveredIsPushed` | crates/jeed-shm/src/consumer.rs:148-195 | and what is handed over under `s` is that record, in every interleaving in which no record pushed carries `s` in its sequence word already |
| `RingPush.FreshIsDelivered` | crates/jeed-shm/src/producer.rs:155-159 | with fresh records every record handed over under a positive sequence is the one pushed under it: word 1 is the sequence and the other 79 words are as pushed |
| `Ring.RingConsumer.TryRecv` | crates/jeed-shm/src/consumer.rs:148-195 | one call updates the consumer as the step system says and its answer is the event recorded; a restart only re-attaches at the live edge |
| `Ring.RingConsumer.Reseat` | crates/jeed-shm/src/consumer.rs:200-204 | moves to the oldest readable sequence, never backwards, and reports exactly the distance |
| `Words.MaskIsModulo` | crates/jeed-wire/src/segment.rs:120-122 | for a power-of-two capacity masking with `capacity - 1` is the remainder |
| `SwarLanes.SubLanesIsWrappingSub` | crates/jeed-convert/src/decimal_core/check.rs:24-30 | a borrow chain over byte lanes computes the wrapping subtraction of whole words, for any lane count |
| `SwarLanes.TopBitsOfAll` | crates/jeed-convert/src/decimal_core/check.rs:24-30 | the final mask test looks at the top bit of every lane of both differences |
| `DecimalCheck.CheckAcceptsIff` | crates/jeed-convert/src/decimal_core/check.rs:6-38 | the word check accepts exactly the chunks whose first byte is a digit and whose later bytes lie in `0x2F..=0x3A`, for any lane count |
| `DecimalCheck.DigitsPassPointsDoNot` | crates/jeed-convert/src/decimal_core/check.rs:6-38 | digits always pass and a decimal point is refused wherever it stands |
| `DecimalCheck.CheckConstants` | crates/jeed-convert/src/decimal_core/check.rs:6-38 | the four widths' literal constants are the repeated bytes the argument is made for |
| `SwarFold.FoldStep` | crates/jeed-convert/src/decimal_core/bcd.rs:47-61 | one mask, shift and multiply step folds every pair of lanes with its weight, whatever the number of lanes |
| `DecimalFold.EightFolds` | crates/jeed-convert/src/decimal_core/bcd.rs:47-61 | three folds of eight packed digits compute what a digit-by-digit loop computes |
| `DecimalFold.SixteenFolds` | crates/jeed-convert/src/decimal_core/bcd.rs:66-84 | four folds of sixteen packed digits compute what a digit-by-digit loop computes |
| `DecimalFold.LooseIsValue` | crates/jeed-convert/src/decimal_core/bcd.rs:25-84 | on digits the fold's nibble reading is the decimal value |
| `IntegerParser.CheckedIs` | crates/jeed-convert/src/decimal_core/checked_conversion.rs:16-79 | a chunk is read exactly when the word check passes it, and then by its low nibbles |
| `IntegerParser.ReadsDigitsIff` | crates/jeed-convert/src/integer_parser/unsigned_decimal.rs:365-523 | over every non-empty digit text and both limit flags the reader agrees with a checked digit loop exactly when, leading zeros of a text longer than twenty taken off, some digit is left and the twenty-digit sum does not wrap past its checks |
| `IntegerParser.TwentyDigitsIff` | crates/jeed-convert/src/integer_parser/unsigned_decimal.rs:459-474 | on twenty digits, whatever the limits asked for, the answer is the checked loop's exactly when the wrapped sum does not escape, and otherwise what the sum wrapped to |
| `IntegerParser.TwentyDigitsWrap` | crates/jeed-convert/src/integer_parser/unsigned_decimal.rs:459-487 | 18446744073709560000 is read as 8384, behind any number of zeros and with either limit on |
| `IntegerParser.SkipZeros` | crates/jeed-convert/src/integer_parser/unsigned_decimal.rs:475-487 | the loop passes over exactly the leading zeros |
| `PointSqueeze.SqueezeDrops` | crates/jeed-convert/src/decimal_core/squeeze_point.rs:104-122 | for any lane count the squeeze deletes the byte at the configured index and puts a zero in front; it refuses exactly when the mirrored byte is a point |
| `PointTables.TablesAreClosedForms` | crates/jeed-convert/src/decimal_core/squeeze_point.rs:5-180 | every entry of the twelve mask tables is the closed form the squeeze is proved for |
| `FixedExtractor.BuiltIsValid` | crates/jeed-convert/src/extractor/config.rs:99-164 | in wrapping arithmetic a reader that was built has its window where the shape says and looks for its point at the integer size; the point is inside the window exactly when the unused head does not reach past it |
| `FixedExtractor.BuildsIff` | crates/jeed-convert/src/extractor/config.rs:99-164 | a shape is accepted exactly when it has a digit and leaves no more bytes unused than it has digits |
| `FixedExtractor.ReadsBehindThePoint` | crates/jeed-convert/src/extractor/fixed_extractor.rs:50-81 | where the unused head reaches past the point, the wrapped index still reads the digits exactly when the padded word has room from the point on, and is refused otherwise |
| `FixedExtractor.ReadsExactlyIff` | crates/jeed-convert/src/extractor/fixed_extractor.rs:72-81 | every shape, of any length, on every well-formed field: a pointed field reads exactly up to sixteen bytes after its sign and is refused beyond; a point-free one gives what a checked digit loop gives exactly when it is not more than twenty zeros alone and the twenty-digit sum does not escape |
| `FixedExtractor.ReadsExactly` | crates/jeed-convert/src/extractor/fixed_extractor.rs:72-81 | in particular sixteen bytes with a point and eighteen digits without are always read exactly |
| `FixedExtractor.AcceptedWindow` | crates/jeed-convert/src/extractor/fixed_extractor.rs:192-207 | whatever any reader accepts, at any length and wherever it expects its point, holds only bytes from `'/'` to `':'` besides a leading minus and the point where it is expected in the window |
| `FixedExtractor.RefusedFirst` | crates/jeed-convert/src/extractor/fixed_extractor.rs:60-81 | a field is refused for the place of its point, then for its length, before any digit is looked at, each with its own error |
| `FixedExtractor.OtherShapeRefuses` | crates/jeed-convert/src/extractor/fixed_extractor.rs:60-81 | a field well formed in one shape is refused by every reader of the same window that expects the point elsewhere, or none |
| `FixedExtractor.DerivativeShapesAreDisjoint` | crates/jeed-krx/src/extract.rs:77-84 | of the three nine-byte derivative shapes exactly the right one accepts a well-formed field |
| `FixedExtractor.PlusIsRefused` | crates/jeed-krx/src/field.rs:81-100 | a leading plus is refused by every reader, of any length and wherever it expects its point, against the comment on `price` |
| `FixedExtractor.UnusedFractionRefuses` | crates/jeed-convert/src/extractor/config.rs:123-145 | a shape whose whole fraction is unused keeps the point in its window and reads nothing |
| `FixedExtractor.ColonReadsAsTen` | crates/jeed-convert/src/decimal_core/check.rs:24-28 | `1:` is read as twenty |
| `Hhmmss.PairsAcceptIff` | crates/jeed-convert/src/decimal_core/check.rs:47-63 | the pair check passes exactly the words none of whose bytes is above `'9'` |
| `Hhmmss.FoldsPairs` | crates/jeed-convert/src/decimal_core/hhmmss.rs:22-32 | for any eight bytes the three folds weigh four pairs of nibbles, the first two by sixty times the last two's weight |
| `Hhmmss.SixIff` | crates/jeed-convert/src/decimal_core/hhmmss.rs:12-35 | six bytes are accepted exactly when none is above `'9'`, and read by their low nibbles |
| `Hhmmss.SpacesAreMidnight` | crates/jeed-convert/src/decimal_core/hhmmss.rs:10-20 | six spaces are read as midnight, against the documented refusal of every byte that is not a digit |
| `Hhmmss.EightDigitsRead` | crates/jeed-convert/src/decimal_core/hhmmss.rs:6-35 | eight digits are not read as the documented total seconds unless all are zero: every unit weighs sixty times too much |
| `Hhmmss.ReadsSeconds` | crates/jeed-convert/src/decimal_core/hhmmss.rs:12-35 | six digits are read as hours, minutes and seconds, whatever their ranges |
| `Hhmmss.OtherLengths` | crates/jeed-convert/src/decimal_core/hhmmss.rs:12-20 | a field is refused for its length exactly when it has neither six nor eight bytes |
| `KrxClock.IsBlank` | crates/jeed-krx/src/field.rs:71-80 | true exactly when every byte is a space |
| `KrxClock.ReadsTimeIff` | crates/jeed-krx/src/field.rs:119-154 | a field of nine or twelve digits is read exactly when it names a time of day, to its nanosecond, and is a range error otherwise |
| `KrxClock.AnyField` | crates/jeed-krx/src/field.rs:119-154 | any bytes: which of the length, the blanks, the ranges, the first six bytes and the rest decides the outcome, and the offset reported with it |
| `KrxClock.ChoosesNearest` | crates/jeed-krx/src/clock.rs:51-67 | every reading and every arrival: the instant assembled is the nearest with that time of day, the earlier on a tie, or zero when it lies before the epoch |
| `KrxClock.RecoversIff` | crates/jeed-krx/src/clock.rs:51-67 | an instant is recovered from its KST time of day exactly when it was received from just under twelve hours early to twelve hours late, midnight or not |
| `KrxClock.RecoversNearIff` | crates/jeed-krx/src/clock.rs:51-67 | up to the end of the `i64` range, an instant that near is recovered exactly when the distance from the reading's base to the arrival does not wrap |
| `KrxClock.RecoversAtOnceIff` | crates/jeed-krx/src/clock.rs:51-67 | an instant that arrives at the moment it names is recovered exactly when it lies before the last KST midnight of the range |
| `KrxClock.FieldRoundTripIff` | crates/jeed-krx/src/field.rs:119-154 | printing, reading and assembling gives an instant back under the same condition |
| `JsonScan.ParseStringBytes` | crates/jeed-crypto/src/json.rs:138-161 | the two loops stop where the specification of a string says, in bounds on any bytes |
| `JsonScan.SkipToClose` | crates/jeed-crypto/src/json.rs:202-220 | the bracket loop stops where the specification says, in bounds and terminating on any bytes |
| `JsonScan.SkipValue` | crates/jeed-crypto/src/json.rs:176-188 | one value is stepped over as specified, on any bytes |
| `JsonScan.NextField` | crates/jeed-crypto/src/json.rs:91-104 | the next key and the position of its value, as specified, on any bytes |
| `JsonScan.FindObject` | crates/jeed-crypto/src/json.rs:300-310 | the slice the code cuts out here, or nothing, on any bytes |
| `JsonScan.CutIff` | crates/jeed-crypto/src/json.rs:292-310 | on any bytes an object is cut out exactly when it closes or the data end in a closing brace, and then, unclosed, it is everything up to that brace, against the documented refusal |
| `JsonScan.RunsEnd` | crates/jeed-crypto/src/json.rs:108-240 | runs of whitespace, letters and number bytes end exactly at the first byte of another kind, on any bytes |
| `JsonScan.UnclosedIsCut` | crates/jeed-crypto/src/json.rs:292-310 | `{{}` never closes and is cut out |
| `JsonScan.Members` | crates/jeed-crypto/src/json.rs:91-104 | the decoders' loop of the two scanners ends on every input and collects the specified walk |
| `JsonScan.Objects.Next` | crates/jeed-crypto/src/json.rs:343-358 | each call hands out the next of the objects that remain, until none does |
| `JsonGrammar.ValuePasses` | crates/jeed-crypto/src/json.rs:202-220 | every well-formed value leaves the depth of a bracket scan as it found it |
| `JsonGrammar.SkipsValue` | crates/jeed-crypto/src/json.rs:176-188 | every well-formed value, however deeply nested, is stepped over to its last byte and no further |
| `JsonGrammar.ObjectIsCut` | crates/jeed-crypto/src/json.rs:300-310 | an object is cut out of whatever surrounds it at its own braces |
| `JsonGrammar.ObjectIsWalked` | crates/jeed-crypto/src/json.rs:91-104 | the walk of an object visits its own members in order, each with its own value, as far as the first empty key: all of them exactly when no key is empty |
| `JsonGrammar.EveryObject` | crates/jeed-crypto/src/json.rs:343-358 | an array of objects is handed out object by object, in order, and then ends |
| `DecimalText.DenotesIff` | crates/jeed-fix/src/tagvalue.rs:183-187 | a number is a whole count of units of a scale exactly when no non-zero digit lies past it, and then the count is the digits within it |
| `FixDecimal.ParseScaledDecimal` | crates/jeed-fix/src/tagvalue.rs:188-235 | the checked loops compute the specified outcome, errors and their order included |
| `FixDecimal.ReadsExactlyIff` | crates/jeed-fix/src/tagvalue.rs:188-235 | Ok(v) exactly when the text is well formed, denotes v units of the scale to the last digit, and |v| is at most `i64::MAX` |
| `FixDecimal.PrecisionIff` | crates/jeed-fix/src/tagvalue.rs:188-235 | any text is refused for precision exactly when it has digits past the scale that are not all zero, the number within the scale fits and nothing in front of them is malformed |
| `DynamicExtractor.ScanBody` | crates/jeed-convert/src/extractor/dynamic_extractor.rs:304-316 | the guard's loop accepts exactly digits with at most one point, and counts them |
| `DynamicExtractor.ParseDigits` | crates/jeed-convert/src/extractor/dynamic_extractor.rs:372-381 | the digit loop computes the wrapping fold |
| `DynamicExtractor.ReadsWrappedIff` | crates/jeed-convert/src/extractor/dynamic_extractor.rs:270-334 | the exact reader succeeds for exactly the texts that are well formed, at most eighteen digits long and whole at the scale, with the exact count wrapped into an `i64` |
| `DynamicExtractor.ReadsExactlyIff` | crates/jeed-convert/src/extractor/dynamic_extractor.rs:270-273 | a value read is the number exactly when that count fits an `i64` |
| `DynamicExtractor.FitsEighteen` | crates/jeed-convert/src/extractor/dynamic_extractor.rs:6-8 | integer digits and decimals that come to eighteen at most always fit |
| `DynamicExtractor.NineteenDigitsWrap` | crates/jeed-convert/src/extractor/dynamic_extractor.rs:260-273 | eleven nines at eight decimals are read as a negative number |
| `PlainDecimal.Output.Write` | crates/jeed-crypto/src/json.rs:592-646 | the rewriter writes the specified plain text, or fails exactly when it does not fit |
| `PlainDecimal.KeepsValue` | crates/jeed-crypto/src/json.rs:538-646 | the plain text written for a number in exponent form is the same rational number |
| `PlainDecimal.PriceIsExactIff` | crates/jeed-crypto/src/instrument.rs:117-124 | on any bytes, in either notation, a price returned is the number the text names exactly when its count of units fits an `i64` |
| `PlainDecimal.QtyIsExactIff` | crates/jeed-crypto/src/instrument.rs:129-136 | the same of a size, which is never below zero |
| `PlainDecimal.ReadsWhatIsDenoted` | crates/jeed-crypto/src/instrument.rs:117-136 | conversely, if the guard lets the text through and it denotes a count that fits, that count is what is returned, a negative one being refused as a size |
| `PlainDecimal.DeclinedIsRefused` | crates/jeed-crypto/src/instrument.rs:117-136 | text that still carries an exponent after the rewriter is refused as a price and as a size |
| `PlainDecimal.EighteenAreExact` | crates/jeed-crypto/src/instrument.rs:117-136 | integer digits and decimals that come to eighteen at most: what is returned is what the text denotes |
| `Notation.TextIsAnswered` | crates/jeed-crypto/src/instrument.rs:117-124 | every decimal text, signed or not, with or without a point or a power of ten: the exact count of units wrapped into an `i64`, or the error of the first of three conditions on the text that fails |
| `Notation.SizeIsPrice` | crates/jeed-crypto/src/instrument.rs:129-136 | a size is read as a price is, and refused when that is below zero |
| `Notation.OthersAreRefused` | crates/jeed-crypto/src/instrument.rs:117-124 | any bytes that are no such text are refused, as empty or as no digits |
| `Notation.PowerFormIsRead` | crates/jeed-crypto/src/json.rs:538-590 | the rewriter takes an exponent text apart as it was put together exactly when the exponent has at most three digits |
| `CryptoLevels.SaturatesAtTheLimit` | crates/jeed-crypto/src/json.rs:277-287 | saturating at every digit comes to the smaller of the leading digits' number and 2^64-1 |
| `CryptoLevels.ParseScalarU64` | crates/jeed-crypto/src/json.rs:277-287 | the loop returns that number of a scalar's leading digits, and the position past the scalar |
| `CryptoLevels.LevelIsExactIff` | crates/jeed-crypto/src/json.rs:498-516 | at a venue's scales each number of a level is the one its text names exactly when its count of units fits, and quantities are never below zero |
| `LevelGrammar.LevelOfIff` | crates/jeed-crypto/src/json.rs:498-516 | a level is its price and its quantity, each as its own reader reads it |
| `CryptoLevels.ReadPair` | crates/jeed-crypto/src/json.rs:498-516 | one level and the position past it |
| `CryptoLevels.DeltaLevels` | crates/jeed-crypto/src/json.rs:443-482 | the loop fills the free part of the shared array with the specified levels and leaves the rest alone |
| `CryptoLevels.QuoteLevels` | crates/jeed-crypto/src/json.rs:392-434 | the loop fills the side and counts the specified depth |
| `CryptoLevels.Depth` | crates/jeed-crypto/src/json.rs:379-383 | the depth is the deepest level with a positive quantity |
| `LevelGrammar.PairReads` | crates/jeed-crypto/src/json.rs:498-516 | a level array is read as its first two elements and passed over whole, whatever follows them |
| `LevelGrammar.DeltaSideIff` | crates/jeed-crypto/src/json.rs:443-482 | readable levels are returned in order with the position just past the array exactly when the buffer holds them all, and are refused for overflow otherwise; an unreadable level is refused |
| `LevelGrammar.DeltaSideFails` | crates/jeed-crypto/src/json.rs:443-482 | a delta side is refused for its first level that does not read, price before quantity, unless the buffer is full before it |
| `LevelGrammar.BookSideFails` | crates/jeed-crypto/src/json.rs:392-434 | and a snapshot side, when that level is among the ten |
| `LevelGrammar.NullReads` | crates/jeed-crypto/src/json.rs:254-270 | `null` is read as no text and passed over |
| `LevelGrammar.NoArraySide` | crates/jeed-crypto/src/json.rs:392-451 | where no array begins either side reader finds an empty side and gives the rest of the data up |
| `LevelGrammar.BookSideIff` | crates/jeed-crypto/src/json.rs:392-434 | a snapshot side is its first ten levels, refused exactly when one of those does not read, and what follows an array of any length is found just past it |
| `OkxBook.Sides.Read` | crates/jeed-crypto/src/delta.rs:45-63 | one side goes behind what the buffer holds and the counters follow |
| `OkxBook.Sides.Finish` | crates/jeed-crypto/src/delta.rs:67-73 | the buffer ends up with the bids in front |
| `OkxBook.RotateLeft` | crates/jeed-crypto/src/delta.rs:67-73 | the in-place rotation moves the first k levels behind the others |
| `OkxBook.Delta` | crates/jeed-crypto/src/okx/book.rs:265-337 | the decoder writes the specified record, and leaves the caller's record untouched on every failure |
| `OkxDelta.DecodesMembers` | crates/jeed-crypto/src/okx/book.rs:265-337 | decoding the bytes of an object is walking the members the decoder gets to see, keys repeated or not: at a side that is no array it reads an empty side and gives up the rest |
| `OkxDelta.DecodesIff` | crates/jeed-crypto/src/okx/book.rs:265-337 | a diff decodes exactly when, among the members the decoder gets to see, both sides read within thirty-two levels together, both sequence numbers are there and the symbol agrees; the record is stated field by field, the venue's time in whole seconds and nanoseconds |
| `OkxDelta.RefusedFor` | crates/jeed-crypto/src/okx/book.rs:265-337 | and otherwise which of the reasons is reported |
| `OkxDelta.KeysAreSpelled` | crates/jeed-crypto/src/okx/book.rs:275-320 | the six keys as the venue spells them |
| `OkxDelta.AllOrdersAlikeIff` | crates/jeed-crypto/src/delta.rs:1-13 | over every order of a diff's members and all whitespace, all decode to the same record or none does if and only if it is not the case that exactly one side is no array while the other side reads within the buffer and both sequence numbers are there |
| `OkxDelta.DecodesInSpite` | crates/jeed-crypto/src/okx/book.rs:265-337 | a diff with a side that is no array decodes in some order only if it is complete but for that side |
| `OkxDelta.RuinedBehind` | crates/jeed-crypto/src/json.rs:443-451 | and if it is, putting that side behind the other three fields decodes |
| `OkxDelta.RuinedFirst` | crates/jeed-crypto/src/json.rs:443-451 | while putting it first makes the other side missing |
| `OkxDelta.OrderDoesNotMatter` | crates/jeed-crypto/src/okx/book.rs:265-337 | two diffs whose sides are arrays and that say the same under every key decode to the same record or not at all |
| `OkxDelta.PermutationsDecodeAlike` | crates/jeed-crypto/src/delta.rs:1-13 | so do all permutations of such a diff's members |
| `OkxDelta.NoArrayFirst` | crates/jeed-crypto/src/json.rs:443-451 | a side that is no array, told first, makes the other side missing whatever follows |
| `OkxDelta.OrderMattersWithoutArray` | crates/jeed-crypto/src/json.rs:443-451 | with such a side the order does matter: for every instrument there is a diff that decodes and a permutation of it that does not |
| `FixFields.ReadU64` | crates/jeed-fix/src/tagvalue.rs:157-170 | the loop reads one to nineteen digits to their value |
| `FixFields.Fields.Next` | crates/jeed-fix/src/tagvalue.rs:121-138 | yields the next field, or a malformed one once and then ends |
| `FixFields.FieldsRoundTrip` | crates/jeed-fix/src/tagvalue.rs:143-153 | fields written out are read back, all of them and in order |
| `FixFields.SplitsIff` | crates/jeed-fix/src/tagvalue.rs:143-153 | on any bytes a field is split off exactly when it stands there: one to ten digits of a 32-bit tag, `=`, and a value up to the first `<SOH>` |
| `FixFields.StopsAtBroken` | crates/jeed-fix/src/tagvalue.rs:121-138 | behind whole fields the walk ends at the first bytes that are none |
| `FixFrame.ChecksumIsSum` | crates/jeed-fix/src/frame.rs:55-59 | the wrapping fold is the byte sum modulo 256 |
| `FixFrame.FramesMessage` | crates/jeed-fix/src/frame.rs:66-139 | a well-formed message at the front of a buffer is framed as exactly its own bytes, whatever follows |
| `FixFrame.FramesOnlyMessages` | crates/jeed-fix/src/frame.rs:66-139 | whatever is framed is a well-formed message, length, checksum and all |
| `FixFrame.PrefixOutcome` | crates/jeed-fix/src/frame.rs:66-110 | what the framer says of every proper prefix of a message |
| `FixFrame.WaitsAtEveryCutIff` | crates/jeed-fix/src/frame.rs:77-100 | every proper prefix is waited for exactly when the BeginString has at most sixteen bytes and the BodyLength at most six |
| `FixRefusal.CompleteAnswer` | crates/jeed-fix/src/frame.rs:109-139 | once all the bytes a header announces are there the answer is final: a frame, or the body's end, the trailer's shape or the sum as the reason there is none, both sums shown |
| `FixRefusal.WaitsForAnnounced` | crates/jeed-fix/src/frame.rs:109-114 | more bytes are waited for exactly until then |
| `FixRefusal.WrongSumRefused` | crates/jeed-fix/src/frame.rs:126-132 | every well-formed message with any other three-digit sum is refused with both sums, whatever follows |
| `FixRefusal.BadBeginRefused` | crates/jeed-fix/src/frame.rs:68-83 | bytes that do not begin with `8=` and a value are no message |
| `FixRefusal.EndlessBegin` | crates/jeed-fix/src/frame.rs:77-79 | a BeginString without an end is given up past sixteen bytes and waited for before |
| `FixRefusal.SecondField` | crates/jeed-fix/src/frame.rs:84-93 | behind it `9=` is waited for, and anything else refused |
| `FixRefusal.BadLengthRefused` | crates/jeed-fix/src/frame.rs:101-107 | a BodyLength that is no number from 1 to 65536 is refused |
| `FixRefusal.EndlessLength` | crates/jeed-fix/src/frame.rs:94-100 | one without an end is given up past six bytes and waited for before |
| `FixRefusal.DamagedIsFailed` | crates/jeed-fix/src/frame.rs:203-212 | a damaged message fails at once, however much room the buffer has |
| `FixRefusal.AsksForMoreIff` | crates/jeed-fix/src/frame.rs:203-212 | more is asked for exactly while the announced message is not all there and there is room; a full buffer fails |
| `FrameBuffer.Buffer.Push` | crates/jeed-fix/src/frame.rs:193-199 | appends exactly what fits |
| `FrameBuffer.Buffer.Peek` | crates/jeed-fix/src/frame.rs:203-212 | a frame, a wait, or an error; a full buffer that does not frame is an error |
| `FrameBuffer.Buffer.Consume` | crates/jeed-fix/src/frame.rs:216-220 | the rest is moved to the front in place |
| `FrameBuffer.Receive` | crates/jeed-fix/src/frame.rs:141-152 | a stream of messages read in chunks of any sizes yields exactly those messages, in order, and no error |
| `Calendar.DaysRoundTrip` | crates/jeed-fix/src/recv/emit.rs:456-467 | every day number names a valid date whose number it is, in every era |
| `Calendar.CivilRoundTrip` | crates/jeed-fix/src/tagvalue.rs:294-302 | every valid date is the date its day number names |
| `Calendar.NextDay` | crates/jeed-fix/src/tagvalue.rs:294-302 | the day after a valid date has the next number |
| `Calendar.Epoch` | crates/jeed-fix/src/tagvalue.rs:292-294 | 1970-01-01 is day zero |
| `UtcTime.StampRoundTrip` | crates/jeed-fix/src/tagvalue.rs:242-289 | for every `u64` clock reading, parsing the printed sending time gives the reading to its millisecond |
| `UtcTime.FractionIff` | crates/jeed-fix/src/tagvalue.rs:280-287 | a fraction is read exactly when it is empty or a point and one to nine digits, as the nanoseconds those digits of a second are |
| `UtcTime.TimeIff` | crates/jeed-fix/src/tagvalue.rs:270-289 | any bytes: a time is read exactly when it is hours, minutes, seconds up to the sixtieth and a fraction, and to the nanosecond |
| `UtcTime.DateIff` | crates/jeed-fix/src/tagvalue.rs:253-266 | any bytes: a date is read exactly when it is eight digits with a month and a day up to 31, from 1970 to the end of the word |
| `UtcTime.ReadAsItselfIff` | crates/jeed-fix/src/tagvalue.rs:253-266 | a date read is read as the day it names exactly when the calendar has that day |
| `UtcTime.StampIff` | crates/jeed-fix/src/tagvalue.rs:242-249 | any bytes: a stamp is a date, `-` and a time, and their sum wraps |
| `FixWriter.WriteSendingTime` | crates/jeed-fix/src/recv/emit.rs:426-446 | the writer prints exactly that text, twenty-one bytes |
| `FixWriter.Writer.Byte` | crates/jeed-fix/src/recv/emit.rs:495-502 | a byte is appended, or the overflow is remembered |
| `FixWriter.Writer.Bytes` | crates/jeed-fix/src/recv/emit.rs:505-512 | bytes are appended whole, or the overflow is remembered |
| `FixWriter.Writer.Pad` | crates/jeed-fix/src/recv/emit.rs:535-553 | zero-padded decimal is appended, or the overflow is remembered |
| `FixWriter.Writer.Tag` | crates/jeed-fix/src/recv/emit.rs:557-562 | a field is appended, or the overflow is remembered |
| `FixEmitter.Emitter.Build` | crates/jeed-fix/src/recv/emit.rs:370-417 | succeeds exactly when body and message fit, with the message in the buffer and the sequence number consumed; a failed build consumes none |
| `FixEmitter.BuiltIsFramed` | crates/jeed-fix/src/recv/emit.rs:370-417 | every message built of SOH-free values frames as exactly its own bytes with the right BodyLength and CheckSum, and its fields are the header's and then the given ones in order |
| `FixEmitter.BuiltSays` | crates/jeed-fix/src/recv/emit.rs:370-417 | read back, every message has its type first, its sender under 49, its receiver under 56, its number under 34 as far as nineteen digits go, the clock to the millisecond under 52, then the given fields, and nothing else |
| `FixEmitter.CarriesItsNumberIff` | crates/jeed-fix/src/recv/emit.rs:381-386 | MsgSeqNum read back from the message is the number consumed exactly when it has at most nineteen digits; the reader refuses the `u64` numbers of twenty |
| `MarketData.ParseMessage` | crates/jeed-fix/src/market_data.rs:491-604 | the loop over the body's fields computes the specified outcome |
| `MarketData.OpensEntry` | crates/jeed-fix/src/market_data.rs:502-560 | an encoded entry, begun by the delimiter or by a value the entry before it has already and the rest in any order, closes the one before it and is collected whole |
| `MarketMessage.PushAllIs` | crates/jeed-fix/src/market_data.rs:608-640 | an implied level is the number of earlier entries on the side; the first entry without a type or the thirty-third entry is refused, whichever comes first |
| `MarketMessage.EntriesIff` | crates/jeed-fix/src/market_data.rs:491-640 | a header that reads and an encoded list of entries give, in order with their levels, those entries in a message with what the header's values say, or the first of five reasons not to; kinds, delimiters, limits and codes stated as bytes and numbers |
| `MarketMessage.BodyIff` | crates/jeed-fix/src/market_data.rs:491-604 | and so are the bytes of the body those fields are written in |
| `MarketMessage.HeaderFolds` | crates/jeed-fix/src/market_data.rs:562-585 | a header is taken exactly when each of its fields reads, to the kind, number, time, flag, request, symbol and count its last values say |
| `MarketMessage.HeaderFaultIsReported` | crates/jeed-fix/src/market_data.rs:562-585 | the first header field that does not read is reported, whatever follows |
| `MarketMessage.GroupFaultIsReported` | crates/jeed-fix/src/market_data.rs:527-560 | behind whole entries a group field that does not read is reported, whatever follows: as a bad value, an unknown action, or what its reader says |
| `MarketMessage.BrokenIsMalformed` | crates/jeed-fix/src/market_data.rs:499-501 | a broken field behind whole header fields is reported as such |
| `MarketMessage.ScalesReport` | crates/jeed-fix/src/tagvalue.rs:47-82 | what a value reader refuses is reported under its own tag, a number finer than the scale as such |
| `MarketMessage.ScalesReadExactlyIff` | crates/jeed-fix/src/market_data.rs:530-540 | at a venue's scales a price is read as v exactly when it is well formed and v units are the number and fit, a size when v is not below zero besides, dates, times and stamps exactly when they name v |
| `MarketMessage.OutsideEntryIff` | crates/jeed-fix/src/market_data.rs:485-526 | for any fields, the parse stops with a group tag outside an entry exactly when the group's first field is not the delimiter, and with that tag, against the claim that a venue ordering the group differently still decodes |
| `MarketMessage.OutsideBodyIff` | crates/jeed-fix/src/market_data.rs:485-526 | and so for the bytes of the body those fields are written in |
| `MarketMessage.NewScalesReadValues` | crates/jeed-fix/src/market_data.rs:530-560 | the program's own readers of values never report a group tag, which is all these two ask of readers |
| `FixSession.SessionState.Observe` | crates/jeed-fix/src/session.rs:271-293 | judges one number and updates every counter |
| `FixSession.SessionState.ApplyAdmin` | crates/jeed-fix/src/session.rs:302-315 | session effects of an administration message; no counter moves |
| `FixSession.CoveredIff` | crates/jeed-fix/src/session.rs:271-293 | over any run `[1, next_expected)` is exactly the numbers accepted and the ranges reported |
| `FixSession.OnlyOnce` | crates/jeed-fix/src/session.rs:199-204 | no number is both accepted and reported, nor accounted for by two messages |
| `FixSession.CountersSplit` | crates/jeed-fix/src/session.rs:271-293 | `observed` splits into in-order, gaps, duplicates and regressions, and `lost` is the size of the reported ranges |
| `FixSession.NumbersAddUp` | crates/jeed-fix/src/session.rs:271-293 | accepted numbers and reported ranges add up to all the numbers gone by |
| `FixSession.JudgedIff` | crates/jeed-fix/src/session.rs:271-293 | a message whose number is zero or accounted for already is a duplicate exactly when it is flagged, and a regression otherwise; every other message is accepted |
| `FixSession.ReportedIff` | crates/jeed-fix/src/session.rs:199-204 | an accepted message reports exactly the smaller numbers not accounted for, and is a gap exactly when there are any |
| `FixSession.Expected` | crates/jeed-fix/src/session.rs:271-293 | a verdict names the message's number, and as the expected one the least not accounted for |

## Left out

- Memory ordering: fences stand for program order, and the interleavings are sequentially consistent.
- Reads that straddle a producer restart: sequence numbers repeat there, so the results on torn and lost records are stated within one boot.
- Sequence numbers at the in-progress sentinel 2^64-1: the producer's methods ask for a next sequence below it.
- Ring.RingConsumer.TryRecv: proved with the producer standing still, and tied by `RingDelivery.CallIsReceived` to the steps of one call, whose interleavings with the producer the step system covers; one consumer a segment.
- The segment's mapping, header validation and drop counter (`create`, `attach`, `check`): calls into the operating system, or no deep property.
- FixedExtractor.BuiltIsValid: sizes below 2^60, so that no sum of sizes leaves the word; a debug build, which stops at a subtraction that wraps, is not modelled, nor are the narrower and wider integer readers, which repeat these shapes.
- Floats (`to_f32`, `to_f64`, `fraction_multiplier`).
- The i32 bracket depth of `skip_to_close` is an unbounded counter here: it differs only past 2^31 nested brackets.
- JsonGrammar.ObjectIsWalked: about well-formed texts; on other bytes the scanners are shown to stay in bounds and to end, not to mean anything.
- `next_key`, `parse_bool` and the scanners' use by other venues: repeats of the shapes modelled.
- OkxDelta.DecodesIff: a diff's members have distinct keys (`OkxDelta.DecodesMembers` does not ask for it), its sides up to the first that is no array are arrays of levels, and its scalar fields are strings or numbers.
- OkxDelta.AllOrdersAlikeIff: about which orders decode and to what, not about which error the others meet first; keys are distinct.
- The OKX envelope and snapshot decoders, which record flags and depths, and the other venues' books and trades.
- DynamicExtractor.ReadsWrappedIff: the exact readers only; the truncating `parse` and `try_parse` on unguarded text are not stated.
- FixFrame.FramesMessage: the declared length carried inside a BodyLength error is not modelled, only the kind of error.
- FrameBuffer.Receive: the read loop around the buffer, with each chunk pushed as far as it fits; `spare` and `commit` are the same push without the copy.
- FixEmitter.BuiltIsFramed: values free of `<SOH>` and a non-empty BeginString, without which a message cannot frame; the builders of single message types pass their fields to `build` in the order given here.
- MarketMessage.EntriesIff: fields of the header come before the group; an entry carries its symbol, and each tag the parser does not know, once.
- MarketMessage.BrokenIsMalformed: the byte offset carried inside the error is not modelled.
- FixSession.CoveredIff: runs without a SequenceReset, which moves the expected number by definition; the counters are unbounded.
- Sockets, TLS, WebSocket frames, configuration, threads, logging, the KRX message layouts and the receive loops: input and output, or not part of this model.
