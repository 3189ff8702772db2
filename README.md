# A single-file record store, modelled in Dafny

The system stores records of several types in one binary file, opened
read/write through a single `fstream` with one shared get/put position. Every
record is a *frame*:

- a 4-byte `RecSize`, the length of the whole frame;
- a `RecName` of `REC_NAME_SIZE` bytes, NUL padded;
- an 8-byte `primaryKey`, where 0 marks a deleted record;
- the record's payload.

A `Database` object owns the stream. It can connect, close, count the frames
and dump them, either by type or all.

A `Record` object holds its own byte image and `recordDBAddress`, the
offset of its frame, or -1 when it has none. It can:

- append itself (`Insert`), rewrite itself in place (`Update`), or zero itself
  out while keeping the size field (`Delete`);
- load the next frame of its type (`GetRecordByName`);
- scan for the next frame of its type that satisfies a chain of field
  comparisons (`Seek` from the start of the file, `Next` from where the
  stream stands).

A registry maps type names to factories. It serves the lookups by primary
key: `GetRecordName`, `GetRecordByIndex` and `IsDeleted`.

The model is organised in these modules:

- `Bytes` (bytes.dfy): bytes, little-endian two's-complement integers,
  C strings, and the effect of a positioned write, holes included.
- `Framing` (frames.dfy): the frame format, plus the walk `Frames` over a
  file whose frames tile it. It specifies every scan as a function:
  - `FindKey` and `FindName`;
  - `CountNamed` and `LiveCount`;
  - the walk of `Dump(void)` as written (`DumpAllEnds`, `DumpAllCount`,
    `DumpAllStop`).
- `FrameFacts` (frame_facts.dfy): what the writes do to the frames.
  - Insert adds one frame.
  - Update and Delete keep the frame sequence, and therefore the count.
  - Dump(void) goes astray at a deleted frame.
- `Predicates` (predicates.dfy): the comparison chain of
  `Record::processSeek`.
  - Terms, per-type comparisons, `std::stoll`, the one-term `Step` and the
    whole-chain `Fold`.
  - Proofs that `Fold` is the left-associative reading of the chain, and what
    each comparison means.
- `Scanning` (scanning.dfy): `FindMatch`, the first frame a chain scan
  accepts, or the frame where a term threw.
- `Database` (database.dfy): the `Store` class holds the bytes, the position,
  the open flag and the name. `Binding` holds the static `Record::db`.
- `Records` (records.dfy): the `Registry` class and the `Record` class over
  an `array<byte>` image. The loops are imperative methods, each proved equal
  to the scan function it implements.

I/O is reduced to data:

- the bytes found on disk are passed to `Connect`;
- the clock's tick count is passed to `Insert`;
- `GetEnumValue` is passed to `Seek` and `Next` as a resolver function.

## Model

| member | source | states |
|---|---|---|
| Bytes.IntLeRoundTrip | Record.cpp:80 | an integer stored little-endian in n bytes reads back as itself |
| Bytes.NatLeRoundTrip | Record.cpp:80 | an unsigned value stored in n bytes reads back as itself |
| Bytes.LeNatRoundTrip | Record.cpp:270 | every byte string is the encoding of the value read from it |
| Bytes.SignedUnsigned | Record.cpp:598-641 | a signed value converted to unsigned and read back as signed is unchanged |
| Bytes.CString | Record.cpp:201 | the string strcmp sees is the prefix before the first NUL, with no NUL inside it |
| Bytes.Write | Record.cpp:174-176 | a positioned write replaces exactly the written range, leaves every other byte alone, and fills a gap past the end with zeros |
| Bytes.LeNatOfZeros | Record.cpp:171 | zeroed bytes read as the integer 0 |
| Bytes.CStringOfZeros | Record.cpp:171 | a zeroed name reads as the empty string |
| Framing.FrameEnd | Database.cpp:82 | the walk after a frame moves strictly forward and stays inside the file |
| Framing.ScanBuffer | Record.cpp:283 | the bytes a chain scan reads are the frame minus its size and name fields |
| Framing.TiledFrom | Database.cpp:73-84 | a position the frames tile from lies inside the file, and the end of the file tiles trivially |
| Framing.Frames | Database.cpp:73-84 | the frame offsets are strictly increasing, and each is a whole frame from which the file still tiles |
| Framing.FindKey | Record.cpp:921-937 | the found frame holds the key and no earlier frame does; with no result, no frame holds it |
| Framing.FindName | Record.cpp:190-221 | the found frame has the name and no earlier frame does; with no result, no frame has it |
| Framing.CountNamed | Database.cpp:104-127 | at most one count per frame |
| Framing.LiveCount | Database.cpp:149-169 | at most one count per frame |
| Framing.DumpAllNext | Database.cpp:158-167 | from a frame, Dump(void) moves forward without leaving the frame, and lands on the next frame exactly when the frame is live or is a bare header |
| Framing.DumpAllEnds | Database.cpp:149-169 | the walk of Dump(void) ends on every file whose frames tile it with no deleted frame |
| Framing.DumpAllCount | Database.cpp:149-169 | on a file with no deleted frame, Dump(void) counts every frame |
| Framing.DumpAllStop | Database.cpp:149-156 | the walk never moves backwards, and on a file with no deleted frame it stops at the end of the file |
| FrameFacts.AppendFrame | Record.cpp:82-84 | appending an image adds exactly one frame at the old end of the file and keeps every earlier header |
| FrameFacts.RewriteFrame | Record.cpp:120-128 | rewriting one frame in place, with its size kept, keeps the frame sequence and every other header |
| FrameFacts.DeleteKeepsFrames | Record.cpp:173-177 | zeroing a frame after its size keeps the frame sequence, so GetCount does not change; that frame then has an empty name and key 0, and the other headers are unchanged |
| FrameFacts.UpdateKeepsFrames | Record.cpp:119-128 | writing an image of the frame's own size keeps the frame sequence and gives the frame the image's name and key |
| FrameFacts.InsertThenFind | Record.cpp:64-88 | round trip: after appending an image of a type the file did not hold, a scan by that name finds it at the old file length with the written bytes |
| FrameFacts.DumpAllStopsAtDeleted | Database.cpp:152-159 | at a deleted frame at least one header plus four bytes long, Dump(void) reads RecSize 0 from the zeroed payload and counts nothing more |
| FrameFacts.DumpAllMissesRecordsAfterDelete | Database.cpp:158-159 | after deleting the first frame, Dump(void) counts 0 while the live count is one less than before |
| FrameFacts.CountNamedZero | Database.cpp:113-126 | Dump(recName) counts 0 exactly when a scan by that name finds nothing |
| FrameFacts.LiveCountFull | Database.cpp:158-159 | every frame is live exactly when no frame has key 0 |
| FrameFacts.DeletePastEnd | Record.cpp:175-176 | a delete at the file length appends a zero block, and the file no longer tiles |
| Predicates.Stoll | Record.cpp:644-649 | a parsed operand lies within long long |
| Predicates.StollDecimal | Record.cpp:645 | round trip: stoll reads back every long long from its decimal text |
| Predicates.StollNeedsADigit | Record.cpp:644-649 | an operand without a digit makes stoll throw |
| Predicates.WideValue | Record.cpp:596-641 | a field of an integer type other than unsigned long long converts to a value within long long |
| Predicates.Lower | Record.cpp:514-515 | std::tolower turns every capital A-Z into its small letter and leaves every other byte alone, so no capital remains |
| Predicates.RemoveSpaces | Record.cpp:770-773 | the result holds no space and is no longer than the input |
| Predicates.LexLess | Record.cpp:775-815 | std::string's operator< puts a proper prefix before the longer string |
| Predicates.LexTrichotomy | Record.cpp:775-815 | std::string's order is a strict total order |
| Predicates.DecideIsRel | Record.cpp:651-694 | on integers each operator case is the relation it names |
| Predicates.Evaluate | Record.cpp:509-887 | an invalid operator yields no truth value, and an unsupported type yields no value at all |
| Predicates.Step | Record.cpp:487-507 | a throwing term leaves both member variables as they were; a term that changes the result also sets the connective to its own |
| Predicates.Fold | Record.cpp:290-344 | the terms are applied in order, and a chain in which no term throws runs to its end |
| Predicates.Matches | Record.cpp:344-354 | a frame is accepted only if some term of the chain compared TRUE on it |
| Predicates.FoldTrueNeedsTrueTerm | Record.cpp:489-507 | LastOpResult ends TRUE only if it started TRUE or some term compared TRUE |
| Predicates.FoldIsLeftFold | Record.cpp:489-507 | over a chain whose terms all compare, the evaluation is the left fold ((t1 op1 t2) op2 t3)... with no precedence |
| Predicates.MatchesIsLeftFold | Record.cpp:344-354 | a frame matches exactly when the left fold of the chain is true |
| Predicates.ThrowEndsChain | Record.cpp:295-306 | a term that throws ends the chain with the member variables as they were, unless the previous term settled the skip |
| Predicates.CharComparesOperandToField | Record.cpp:537-587 | char types compare the operand's first byte, on the left, with the field byte, both signed |
| Predicates.IntegerComparesFieldToOperand | Record.cpp:588-695 | integer types compare the field, on the left, with stoll of the operand, and throw when stoll does |
| Predicates.ULongLongComparesUnsigned | Record.cpp:696-757 | unsigned long long compares the unsigned field with stoll of the operand modulo 2^64 |
| Predicates.CharArrayComparesText | Record.cpp:758-821 | char[n] compares the field's C string and the operand, both without spaces, in std::string order |
| Predicates.EnumComparesResolvedValue | Record.cpp:822-882 | an enum constant resolving to 0xFFFFFFFF yields nothing (an early return); otherwise the field compares as unsigned int |
| Predicates.BoolMatchesSpelling | Record.cpp:510-536 | for Equal: "true" or "1" in any case holds exactly when the field byte is 1, "false" or "0" exactly when it is 0, any other spelling never holds, and a field byte other than 0 or 1 never matches; NotEqual negates Equal; the ordering operators yield nothing |
| Predicates.NotEqualNegatesEqual | Record.cpp:509-887 | for every type, NotEqual is the negation of Equal, and it fails in the same way |
| Predicates.OrSkipsNextTerm | Record.cpp:489-498 | after TRUE joined by OR, the next term is not evaluated, even one that would throw |
| Predicates.AndSkipsNextTerm | Record.cpp:499-506 | after FALSE joined by AND, the next term is not evaluated |
| Predicates.NoChainWideShortCircuit | Record.cpp:489-507 | "a OR b AND c" with a TRUE and b, c FALSE is FALSE: the skip reaches one term only |
| Scanning.FindMatch | Record.cpp:258-355 | a hit is a frame of the type that the chain accepts; a throw is at a frame of the type where the chain threw; every earlier frame is passed over; a miss passes over all frames |
| Scanning.MatchIsNamed | Record.cpp:272-276 | a chain scan never finds a frame before the first frame of the type |
| Scanning.EmptyChainNeverMatches | Record.cpp:248-249 | with no terms, the chain scan finds nothing |
| Database.Store.constructor | Database.cpp:14-18 | the store is open at position 0 over the file's bytes, or an empty file, is bound as Record::db, and records the name |
| Database.Binding.constructor | Record.cpp:16-17 | Record::db starts as a null pointer |
| Database.Store.Connect | Database.cpp:31-49 | whatever was open before, the store ends open at position 0 over the file's bytes, or an empty file created for it, bound as Record::db and named |
| Database.Store.IsOpen | Database.cpp:50-53 | reports the open state |
| Database.Store.Close | Database.cpp:54-62 | returns 0 and closes an open store, otherwise returns 1; bytes, position and name unchanged |
| Database.CloseTwice | Database.cpp:54-62 | closing an open store twice returns 0, then 1 |
| Database.Store.GetCount | Database.cpp:63-86 | on a tiled file returns the number of frames, deleted ones included, and leaves the stream at the end; a closed stream counts 0 |
| Database.Store.Dump | Database.cpp:87-130 | returns 1 without scanning when unbound or closed; otherwise returns 0 with the number of frames of the given name |
| Database.Store.DumpAll | Database.cpp:132-172 | returns 1 without scanning when unbound or closed; otherwise returns 0 with the count and stop position of the walk as written |
| Database.DumpAllWalk | Database.cpp:149-169 | the header loop of Dump(void) computes the specified count and stop position |
| Database.Store.DumpLive | Database.cpp:132-172 | corrected Dump(void): returns 0 and the number of live frames |
| Records.Registry.constructor | Record.cpp:11-18 | the factory map starts empty and PrIdx starts at 0 |
| Records.Registry.Register | Record.cpp:11-15 | registering adds or replaces one entry and leaves PrIdx alone |
| Records.KeyName | Record.cpp:908-939 | a non-empty name comes from a frame holding the key |
| Records.KeyProbeEnd | Record.cpp:921-937 | GetRecordName leaves the stream right after the matching header, inside that frame unless it is a bare header, or at the end of the file when no frame holds the key |
| Records.Lookup | Record.cpp:891-907 | a product exists exactly when the key's name is non-empty and registered |
| Records.Deleted | Record.cpp:48-63 | a record is live only if its key is non-zero and a frame holding that key has a registered type name |
| Records.GetRecordName | Record.cpp:908-939 | returns the name of the first frame holding the key, or empty; leaves the stream after that header or at the end |
| Records.GetRecordByIndex | Record.cpp:891-907 | returns the registered product for the key's name, or none; sets PrIdx exactly when a name was found |
| Records.CQuot | Record.cpp:79 | C++ division: the remainder a - q*b lies strictly between -b and b and has the sign of the dividend, so the quotient truncates toward zero |
| Records.KeyFromTicks | Record.cpp:76-80 | the key lies strictly between -10^10 and 10^10; for a non-negative tick count it is (t mod 10^12)/100, which is non-negative |
| Records.RoundTicksGiveZeroKey | Record.cpp:79 | a tick count within 100 of a multiple of 10^12 gives key 0, the "deleted" key |
| Records.WithKey | Record.cpp:80 | setting the key changes only the key field, which then reads back the key |
| Records.InsertThenLookup | Record.cpp:48-88 | round trip: after appending an image with a fresh non-zero key, the lookup by that key finds the image's type, and the record is not deleted |
| Records.DeleteHidesKey | Record.cpp:144-182 | after deleting the only frame holding a key, the lookup finds nothing and the record reports itself deleted |
| Records.NameScanned | Record.cpp:183-228 | a hit loads the whole frame of the type and leaves the stream at its end; a miss leaves the address and the stream at the file's end and the image alone |
| Records.Scanned | Record.cpp:258-358 | TRUE loads an accepted frame's payload after the name and records its offset; NULL or FALSE leave address and image alone; FALSE leaves the stream at the end |
| Records.SkipToName | Record.cpp:190-221 | the header loop stops at the first frame of the type, or at the end |
| Records.FrameIsImage | Record.cpp:212-213 | a frame copied out of the file is a well-formed record image |
| Records.Record.constructor | Record.cpp:27-32 | a new record is not saved |
| Records.Record.IsSaved | Record.cpp:41-47 | saved exactly when recordDBAddress is not -1 |
| Records.Record.IsDeleted | Record.cpp:48-63 | deleted exactly when the key is 0 or the lookup by key finds no registered product; a non-zero key leaves the stream where GetRecordName does and sets PrIdx when a name was found; a zero key changes neither |
| Records.Record.SetPrimaryKey | Record.cpp:80 | the image becomes the image with the key set |
| Records.Record.Insert | Record.cpp:64-88 | refuses without a store or a name and changes nothing; otherwise it sets the key from the ticks, appends the image at the old file length and records that offset; on a closed stream it records -1, writes nothing and still returns true |
| Records.Record.Update | Record.cpp:89-142 | succeeds exactly when the store is open, the record is saved and not deleted, has a name, and its address is inside the file; then exactly the image's bytes at the address are rewritten; otherwise the file is unchanged, and the stream stays put before the IsDeleted lookup, stands where the lookup left it after a refusal by IsDeleted or the name, and at the end of the file after the size check; PrIdx is set by the lookup |
| Records.Record.Deletable | Record.cpp:146-161 | the refusals of Delete: no store, never saved, or already deleted; the stream and PrIdx change only through the IsDeleted lookup |
| Records.Record.Delete | Record.cpp:144-182 | as written: succeeds exactly when bound, saved and not deleted; then it zeroes image and file after the size field, leaves the stream after the record and keeps the address, so the record still reports saved; a refusal leaves the stream where the IsDeleted lookup did; PrIdx is set by the lookup |
| Records.Record.DeleteChecked | Record.cpp:110-117 | corrected Delete: after Delete's refusals it moves the stream to the end of the file and refuses an address at or past it; when the address is a frame of the image's length, the file still tiles after the erase |
| Records.Record.Erase | Record.cpp:162-177 | zeroes the payload in the image and in the file at the address, and leaves the stream after the record |
| Records.Record.EraseFrame | Record.cpp:162-177 | erasing a frame of the image's own length in a tiled file keeps the file tiled |
| Records.Record.ZeroPayload | Record.cpp:162-171 | every image byte after the size field becomes 0, and the size field is kept |
| Records.Record.CopyIn | Record.cpp:212-213 | the copy replaces the image from the offset on and keeps the bytes before it |
| Records.Record.Adopt | Record.cpp:344-350 | the accepted payload replaces the image after the name, and the frame's offset is recorded |
| Records.Record.GetRecordByName | Record.cpp:183-228 | result, address, image and stream are those of NameScanned from the current position |
| Records.Record.ProcessSeek | Record.cpp:487-890 | one term applied to LastOpResult and LastAndOr is one Step; the returned value is the new LastOpResult |
| Records.Record.EvalChain | Record.cpp:290-342 | the terms applied in order compute the Fold of the chain, and the first exception ends it |
| Records.Record.ScanFrames | Record.cpp:258-355 | the frame loop stops where FindMatch says: at a hit, a throw, or the end, with the member variables from that frame |
| Records.Record.Scan | Record.cpp:252-357 | result, address, image, stream and member variables are those of Scanned from the current position |
| Records.Record.Seek | Record.cpp:229-358 | NULL with nothing changed when unbound or closed; otherwise, from offset 0, GetRecordByName for an empty chain and the chain scan otherwise |
| Records.Record.Next | Record.cpp:360-486 | as Seek, but from the current position |
| Records.SeekThenMiss | Record.cpp:190-200 | after Seek, then Next, by name on a file with one frame of the type, the record holds that frame and its address is the file length |
| Records.DeleteAtEnd | Record.cpp:144-182 | Delete of a live record whose address is the file length succeeds and appends zeros, so the file no longer tiles |
| Records.DeleteAfterMissedNext | Record.cpp:144-182 | Seek, Next that misses, then Delete: Delete reports success and the file no longer tiles |

## Left out

- Console output (`std::cout`, `std::cerr`) is not modelled.
- The per-record `rec->Dump()` inside both Dump loops is not modelled. That includes its `GetRecordByIndex` call, which sets `PrIdx`. The position it moves is restored by `seekp(savedPosition)`.
- `fstream` mechanics are not modelled: `clear()`, `gcount`, fail bits and flushing. Seeks, reads and writes succeed, so Update's seek/write/flush failure branches (Record.cpp:120-139) are not modelled.
- The wall clock is not read: `Insert` takes the tick count as a parameter.
- `typeid` and mangled-name dispatch are replaced by the `Kind` datatype.
- `GetEnumValue` is defined elsewhere and is passed as the `resolve` function.
- The `va_list` argument list is modelled as a sequence of terms.
- `new`/`delete` of the scratch buffers is not modelled.
- `GetDatabaseName`, the `Database` destructor and the `Record` copy constructor are not modelled. They only return or copy a field, or close the stream at destruction.
- Record.h and Database.h are not part of this model.
  - `REC_NAME_SIZE` is taken as 16.
  - `GetDataAddress`/`GetDataSize` are the record's image.
  - `GetRecName` is the constructor's `recName`.
  - The registering macros are `Registry.Register`.
- Record.cpp declares `HEADER` without packing (Record.cpp:20-25), and so does `GetCount`'s own local `HEADER` (Database.cpp:66-71), which hides the packed one of Database.cpp:4-10. Only Dump and Dump(void) read the packed 28-byte header. The model uses the packed 28-byte header everywhere.
  - Database.Store.GetCount: counts a final frame of 28 to 31 bytes. The source reads 32-byte headers there when REC_NAME_SIZE is 16, so it does not count such a frame (Database.cpp:75-76).
- `Record()` leaves `LastOpResult`/`LastAndOr` to declarations that are not part of this model. The constructor starts them at NULL, the value every scan resets them to per frame.
- Records.GetRecordName: requires an open store. The source returns a null pointer as a `std::string` when the store is unbound or closed (Record.cpp:910-919), which is undefined behaviour.
- Records.Record.IsDeleted, Records.Record.Update, Records.Record.Delete: require an open store over a tiled file whenever they look a non-zero key up. The lookup through GetRecordName is undefined on an unbound or closed store, and may not terminate on a malformed file.
- Records.Record.Seek, Records.Record.Next, Records.Record.GetRecordByName: require the file to tile from where they start. `Seek`/`Next` do not stop on RecSize 0 and can loop on a malformed file.
  - They also require every frame of the record's type to be as long as the image (`SameSize`). A longer frame overruns the image in memcpy. A shorter one is copied over the front of the image only, leaving the rest of the old image behind (Record.cpp:212-213, 346).
  - They also require every such frame to hold the fields the chain reads.
  - For char[n], a NUL must lie within the field, since the source otherwise reads past it (Record.cpp:767).
  - For the integer and enum types, a term's width must be the size of its type (`Predicates.TermFits`). The source copies `k->sz` bytes into a temporary of the type's own size (Record.cpp:601-640, 836), so a larger width overruns it and a smaller one keeps bytes of an earlier value.
- Records.Record.Next: requires the file to tile from where the stream stands. Several callers leave the stream inside a frame, right after its header: GetRecordName, GetRecordByIndex and IsDeleted (`KeyProbeEnd`), and an Update or Delete refused after the IsDeleted lookup. A Next called after them reads payload bytes as headers (Record.cpp:192-221). Such a walk can read any size, even a negative one, so it need not end, and the model does not cover it.
- Database.Store.GetCount, Database.Store.Dump, Database.Store.DumpLive: are specified on tiled files. Database.Store.DumpAll is specified wherever its walk ends (`DumpAllEnds`).
- Database.Store.Connect: the bytes found on disk are a parameter. A failure to create the file is not modelled.
- Predicates.ULongLongComparesUnsigned: stoll's result converted to unsigned long long is modelled as reduction modulo 2^64. It is not modelled as a separate unsigned parse.
- Predicates.Step: a TRUE joined by OR skips only the next term (Record.cpp:489-498). The term after it is evaluated again, so OR does not end the chain (`Predicates.NoChainWideShortCircuit`).
- Predicates.Evaluate: for a bool term, processSeek lowercases the caller's `recKey` value in place (Record.cpp:514-515). The model lowercases a copy, so the caller's term is left as it was.
- Framing.NameAt: reads RecName as a C string within its own 16 bytes. In the source, a RecName with no NUL runs on into the key bytes for strcmp (Record.cpp:201, 272), for `recName != header.RecName` (Database.cpp:113) and for `return header.RecName` (Record.cpp:933). A type name of 16 characters therefore matches in the model, but in the source only when the key's low byte is 0.
- Records.Record: `recName` may be any byte string, whereas GetRecName() returns a C string. A name holding a NUL, or one of 16 bytes or more, does not occur in the source, and the model does not exclude it.

## Findings

| source | as written | input that shows it | evidently intended | confidence | as-written member | corrected member |
|---|---|---|---|---|---|---|
| Database.cpp:158-159 | Dump(void) goes past a header with key 0 by `continue`, without seeking over the payload, so the next header is read from inside the deleted frame | a file whose first frame is deleted and at least 32 bytes long, followed by live records: the zeroed payload reads as RecSize 0 and the dump counts none of them | skip the whole deleted frame, as Dump(recName) skips a frame of another type, and count every live record | not executed; high | Database.Store.DumpAll, FrameFacts.DumpAllMissesRecordsAfterDelete | Database.Store.DumpLive, FrameFacts.LiveCountFull |
| Record.cpp:144-182 | Delete writes at recordDBAddress + 4 without checking the address against the file size. A scan that misses leaves recordDBAddress at the end of the file (Record.cpp:192) | Seek by name, then Next by name, on a file with one frame of the record's type, then Delete: Delete returns true and appends a zero block, and the file no longer tiles | refuse an address at or past the end of the file, as Update does (Record.cpp:110-117) | not executed; medium | Records.Record.Delete, Records.DeleteAfterMissedNext | Records.Record.DeleteChecked |
