# Car rental storage core, modelled in Dafny

This project models the storage and ingestion core of a small car-rental
system and proves properties of the model. It covers two generations of
the code.

The current core lives in `as.cpp`, namespace `car_rental`:

- the record validator and the comma-separated record codec;
- the transactional file writer: write a `.tmp` sibling, remove the target, rename;
- the file pipeline, which streams a dataset file and quarantines bad lines;
- the file and in-memory storage backends and their factory;
- the `CarRepository` index with its dirty flag and flush;
- the `RentalService` operations;
- chunked batch ingestion.

The legacy core lives in `original.cpp`:

- the `legacy_file` codec, its own writer (write a `.tmp` sibling, then rename), `readAll` and `mutateCars`;
- the rules its menu code embeds:
  - the add, delete and return edits of the car list;
  - the rating-to-limit table and the remaining-rentals count of `rentable_cars`;
  - the rating update after a return.

Modules, one file each:

- `Wrappers`: `Option`, `Result`, `Outcome` and the error kinds.
- `Text`: `std::getline`-style splitting, joining, line rendering, and decimal printing and parsing.
- `CarRecords`: the record, `validate`, `parse` and `serialize`.
- `FileSystem`: the disk as a map from path to content, with an injectable `Fault`. It models three writers as functions:
  - the current transactional writer, as written;
  - a corrected atomic writer;
  - the legacy renaming writer.

  A `Disk` class performs each writer step by step.
- `Pipeline`: `stream`/`readAll` and `writeAll`. `writeAll` uses the current transactional writer as written, so the file backend, `flush`, `addCar` and ingestion all inherit its defects. Each load-back promise states the condition under which it holds: every record is storable and the device keeps the whole file.
- `Storage`: the memory backend, a class whose field the persist call replaces, and the file backend. Both are constructors of one `Backend` datatype. The factory picks one by kind.
- `Repository`: the `CarRepository` class, with its map of records, its dirty flag and a ghost count of persist calls. The sorted views are specified by `SortedValues`, the unique list in strictly ascending id order.
- `Rental`: the `RentalService` class.
- `Batch`: `BatchProcessor::ingest`, as written and corrected.
- `LegacyFile`: the legacy codec, the edits, the `CarList` class they mutate in place, and `mutateCars`.
- `LegacyRules`: the rating tables, the rating update and `rentable_cars`.

Where the documented intent and the code disagree, the model follows the code. There are three such places, each listed under Findings. For each, the corrected behaviour is modelled beside the code as written:

- The current writer's write errors go unchecked.
- The current writer removes the target before it renames.
- A flush that fails inside the stream's per-line handler is caught, logged and skipped like a malformed line. It is not surfaced.

Prices are modelled as whole numbers; the parser yields only non-negative ones. Each is read by a decimal-digit parser and printed in plain decimal form. This covers the whole numbers that default `ostream` precision prints exactly, which is below 10^6 (`Text.SixDigitsSuffice`). A storable record (`CarRecords.Storable`, `LegacyFile.LegacyStorable`) validates, has no delimiter in its text fields and a price below 10^6; these are the records the round-trip lemmas cover.

Nothing in this project runs the program. Everything below is a statement proved by the Dafny verifier about the model.

## Model

| member | source | states |
|---|---|---|
| CarRecords.Validate | as.cpp:32-50 | a record is valid exactly when id and model are non-empty, the condition is one of the five allowed names and the price is positive |
| CarRecords.Parse | as.cpp:58-90 | an empty line is `Ok(None)`; fewer than 4 comma tokens is a parse error; 4 tokens give model = id with condition, price, status from tokens 1-3; 5 or more give id, model, condition, price, status from tokens 0-4; a returned record is valid |
| CarRecords.ParseAccepts | as.cpp:74-88 | a line of 4 or more tokens parses exactly when the id, the model (for 5 or more tokens), the condition and a positive digit-string price pass |
| CarRecords.ParseLegacyShape | as.cpp:74-88 | the four-token line `id,condition,price,status` of a storable record whose model is its id parses to that record |
| CarRecords.Serialize | as.cpp:92-101 | fails exactly on an invalid record, otherwise emits `id,model,condition,price,status` |
| CarRecords.SerializeAll | as.cpp:190-195 | succeeds exactly when every record is valid, and then holds each record's line in order |
| CarRecords.ParseSerialize | as.cpp:58-101 | round trip: parsing the serialised line of a storable record gives the record |
| CarRecords.SerializedIsOneLine | as.cpp:92-101 | the line of a storable record holds no newline |
| CarRecords.ParseIgnoresTrailingTokens | as.cpp:76-80 | tokens after the fifth do not change the result of parsing |
| Text.Split | as.cpp:63-68 | `getline` tokenising yields no token exactly for the empty text |
| Text.SplitJoin | as.cpp:63-68 | splitting the join of delimiter-free tokens whose last one is non-empty gives the tokens back |
| Text.JoinSplit | as.cpp:63-68 | joining the tokens of a text gives the text back, less one trailing delimiter |
| Text.SplitAppend | as.cpp:63-68 | the tokens of `a + d + b` are those of `a` followed by those of `b` |
| Text.SplitRender | as.cpp:177-178 | reading the newline-terminated form of newline-free lines gives exactly those lines |
| Text.ParseNatToString | as.cpp:76-80 | the price printer and parser are inverse on naturals |
| Text.SixDigitsSuffice | as.cpp:97-99 | every price below 10^6 prints in at most six digits |
| FileSystem.TransactionalWrite | as.cpp:112-143 | the current writer as written. It passes exactly when the temp file opens, the rename succeeds and the remove is not needed or succeeds. A pass leaves the target holding what the device stored and no `.tmp` file. A temp file that cannot be opened leaves every file as it was. Other failures before the rename leave the target as it was. A failed rename leaves the `.tmp` file and no target. Every other path keeps its entry |
| FileSystem.TransactionalShortWrite | as.cpp:133-137 | a device that fills up truncates the target and the write still reports success |
| FileSystem.TransactionalRenameFailure | as.cpp:139-142 | a rename that fails after the remove leaves no target at all |
| FileSystem.WritersAgreeWithoutFault | as.cpp:112-143 | without a fault the as-written and the corrected writer have the same effect |
| FileSystem.ShortWriteExample | as.cpp:133-142 | a concrete full device that replaces a one-line file with an empty one and reports success |
| FileSystem.AtomicWrite | as.cpp:112-143 | corrected writer: it passes exactly when temp, write and rename all succeed, and then the target holds the rendered lines; on failure the target keeps its entry; other paths are untouched |
| FileSystem.Stored | as.cpp:133-137 | what the device keeps is a prefix of the text, the whole text unless a full device is too small |
| FileSystem.StoredAppend | as.cpp:133-135 | writing text after what the device kept stores what one write of the whole text would |
| FileSystem.Disk.WriteTransactional | as.cpp:112-143 | the step-by-step write has the effect of `TransactionalWrite`. After a pass or a failed rename, the file system between the remove and the rename was the old one with the staged `.tmp` file and without the target |
| FileSystem.Disk.WriteAtomic | as.cpp:112-143 | the step-by-step corrected write has the effect of `AtomicWrite` |
| FileSystem.RenamingWrite | original.cpp:45-66 | the legacy writer passes exactly when the temp file opens and the rename succeeds, and then the target holds what the device stored; on failure the target keeps its entry; other paths are untouched |
| FileSystem.RenamingShortWrite | original.cpp:59-65 | the legacy writer also reports success after a truncating full device |
| FileSystem.RenamingStores | original.cpp:45-66 | a passing legacy write on a device that kept every line leaves the target holding the rendered lines |
| FileSystem.RenamingIsAtomicWhenStored | original.cpp:45-66 | when the device keeps every line the legacy writer is the corrected writer |
| FileSystem.Disk.WriteRenaming | original.cpp:45-66 | the step-by-step legacy write has the effect of `RenamingWrite` |
| Pipeline.ParsedRecords | as.cpp:177-187 | the streamed records are valid and no more than the lines |
| Pipeline.ParsedRecordsAppend | as.cpp:177-187 | streaming distributes over concatenation of line lists |
| Pipeline.Quarantine | as.cpp:178-186 | a line that fails to parse or is empty is skipped and the lines after it are still delivered |
| Pipeline.Delivered | as.cpp:178-183 | a line that parses contributes exactly its record, in file order |
| Pipeline.WriteAllEffect | as.cpp:190-199 | an invalid record fails `writeAll` before the writer runs, leaving every file as it was. Otherwise the as-written writer runs: it passes exactly when its fault allows, and a pass leaves the target holding what the device stored of the serialised lines. Failures other than the rename leave the target as it was, and a failed rename removes it |
| Pipeline.WriteAllTruncates | as.cpp:190-199 | on a device too small for the dataset file, `writeAll` still passes and the file holds only a prefix of the serialised lines |
| Pipeline.ParsedSerialized | as.cpp:58-101 | the serialised lines of storable records stream back as the records |
| Pipeline.WriteAllThenStream | as.cpp:162-199 | writing storable records and streaming the file back yields the same records in the same order, whenever the device kept the whole file (`WriteAllTruncates` covers the other case) |
| Pipeline.WriteAll | as.cpp:190-199 | the method, which runs the step-by-step as-written writer, has the effect of `WriteAllEffect` |
| Storage.Backend.Name | as.cpp:229-252 | the file backend's name is `file:` followed by its path; the memory backend is named `in-memory`, which does not start with `file:` |
| Storage.Backend.Persist | as.cpp:225-248 | the memory backend stores exactly the records and passes; the file backend has the effect of `writeAll` and keeps the disk's fault; after a pass, storable records load back unchanged from memory, and from a file whenever the device kept it whole |
| Storage.MemoryStorage.constructor | as.cpp:239-240 | a memory store starts with its seed |
| Storage.CreateBackend | as.cpp:260-273 | the factory makes a file backend on the path, or a fresh empty memory backend |
| Repository.LessTotal | as.cpp:297-299 | the id order used by the sort is total on distinct ids |
| Repository.LessTransitive | as.cpp:297-299 | the id order is transitive |
| Repository.LessIrreflexive | as.cpp:297-299 | the id order is irreflexive |
| Repository.Index | as.cpp:285-287 | indexing a list keys every record by its id |
| Repository.IndexKeys | as.cpp:285-287 | the keys of the index are exactly the ids of the list |
| Repository.IndexLastWins | as.cpp:285-287 | the index holds the last record of each id |
| Repository.IndexAppend | as.cpp:341-343 | indexing a concatenation is the first index overridden by the second |
| Repository.SortedValues | as.cpp:291-301 | the records of the map in strictly ascending id order, each once |
| Repository.SnapshotUnique | as.cpp:291-301 | there is only one such sorted list of a map's records |
| Repository.SnapshotLength | as.cpp:291-301 | its length is the number of records |
| Repository.IndexOfSnapshot | as.cpp:282-301 | indexing the sorted list of a map gives the map back |
| Repository.AvailableOf | as.cpp:303-309 | the records whose status is `Available`, and only those |
| Repository.AvailableIsFilterOfAll | as.cpp:303-314 | the sorted available records are the `Available` subsequence of the sorted records |
| Repository.SortedSnapshot | as.cpp:291-301 | the selection loop produces exactly `SortedValues` |
| Repository.CarRepository.constructor | as.cpp:277-280 | a new repository holds the index of what the backend loads, is clean, and has persisted nothing |
| Repository.CarRepository.Reload | as.cpp:282-289 | the map is rebuilt from the loaded records, last one winning, and dirty is cleared |
| Repository.CarRepository.All | as.cpp:291-301 | the records in strictly ascending id order, as many as the map holds |
| Repository.CarRepository.Available | as.cpp:303-314 | the available records in ascending id order, the `Available` subsequence of `all()` |
| Repository.CarRepository.Find | as.cpp:316-322 | present exactly for a stored id, with that record |
| Repository.CarRepository.Upsert | as.cpp:324-328 | stores the record under its id, sets dirty, returns true |
| Repository.CarRepository.Update | as.cpp:330-338 | an absent id returns false with nothing changed; a present one has only that key mutated and sets dirty |
| Repository.CarRepository.BulkUpsert | as.cpp:340-345 | the records are merged in order with the last one winning; dirty becomes dirty or non-empty |
| Repository.CarRepository.Flush | as.cpp:347-353 | a clean repository persists nothing; a dirty one persists `all()` once, and dirty stays set exactly when the persist fails. A memory backend always passes. A file backend gets the effect of `writeAll` on `all()` and keeps its fault. After a pass that kept every record whole, the backend loads `all()` back, and reloading it gives the repository's map |
| Repository.CarRepository.PersistAll | as.cpp:351 | the backend receives `all()`. After a pass that kept every record whole, it loads `all()` back, and the index of what it loads is the repository's map |
| Rental.RentedStatus | as.cpp:400-402 | the renter tag is the fixed prefix followed by the user id, never `Available` |
| Rental.RentalService.AddCar | as.cpp:374-380 | an existing id is refused with nothing changed; otherwise the record is stored and flushed, with one persist; dirty stays set exactly when it fails; a memory backend passes and holds the sorted records; a file backend gets exactly writeAll's effect on the sorted records, with its fault unchanged; after a pass that kept every record whole, the backend loads the sorted records |
| Rental.RentalService.ListAvailable | as.cpp:382-388 | the first `limit` available cars in id order |
| Rental.RentalService.RentCar | as.cpp:390-403 | a missing or unavailable car is refused with nothing changed; otherwise the price is due, the status becomes the renter tag and the change is flushed with one persist; `Ok(true)` exactly when dirty clears, `Err` exactly when it stays; a memory backend gives `Ok(true)` and holds the sorted records; a file backend gets exactly writeAll's effect; after a pass that kept every record whole, the backend loads the sorted records |
| Rental.RentalService.ReturnCar | as.cpp:405-413 | an unknown id returns false with nothing changed; a known car becomes `Available` and is flushed with one persist; `Ok(true)` exactly when dirty clears; a memory backend gives `Ok(true)` and holds the sorted records; a file backend gets exactly writeAll's effect; after a pass that kept every record whole, the backend loads the sorted records |
| Rental.RentalService.Ingest | as.cpp:415-418 | merge the batch, last one winning; an empty batch on a clean repository passes with the backend untouched; otherwise one persist, dirty stays set exactly when it fails, a memory backend passes and holds the sorted records, a file backend gets exactly writeAll's effect, and a pass that kept every record whole loads back the sorted records |
| Rental.RentalService.Save | as.cpp:424-426 | a clean repository passes, stays clean, with no persist and the backend untouched; otherwise one persist, dirty stays set exactly when it fails, a memory backend passes and holds the sorted records, a file backend gets exactly writeAll's effect, and a pass that kept every record whole loads back the sorted records |
| Rental.RentedNotAvailable | as.cpp:390-403 | a rented car drops out of the available listing |
| Rental.ReturnUndoesRent | as.cpp:390-413 | returning a car rented from `Available` restores the inventory |
| Batch.CeilDiv | as.cpp:461-475 | the number of chunks of a given size that `n` records fill |
| Batch.CeilDivOf | as.cpp:461-475 | `b` full chunks and `k` records more make `b` chunks, or `b + 1` when `k > 0` |
| Batch.TallyStep | as.cpp:459-467 | one more record is buffered, or, once the chunk is full, committed: it empties the buffer when the flush succeeds and keeps it when the flush fails |
| Batch.TallyPrefix | as.cpp:459-467 | flush outcomes beyond those the records used do not change the tally |
| Batch.FinishAccount | as.cpp:470-475 | the final commit runs exactly when records remain buffered and counts one more batch when it succeeds; a failure escapes |
| Batch.StrictStep | as.cpp:459-467 | in the corrected loop, one more record is buffered or closes a chunk |
| Batch.ChunkingConservation | as.cpp:456-475 | when every flush succeeds, `processedRecords` is the number streamed, `batches` is that number divided by the chunk size and rounded up, and the persist calls equal `batches` |
| Batch.IngestAccount | as.cpp:456-475 | the reported record count is the number streamed |
| Batch.TallyAllSucceed | as.cpp:459-467 | when every flush succeeds the buffer stays below the chunk size and the records are the full chunks plus the buffer |
| Batch.SwallowedFlushMiscounts | as.cpp:458-467 | one failed flush inside the handler makes two records in chunks of one report a single batch |
| Batch.SwallowedFlushGrowsBuffer | as.cpp:458-467 | after swallowed failures the buffer outgrows the chunk size |
| Batch.BatchProcessor.Commit | as.cpp:462-463 | one commit merges the chunk and persists once; dirty stays set exactly when it fails; on a memory backend it always passes |
| Batch.BatchProcessor.Ingest | as.cpp:448-480 | as written: a zero chunk size fails with nothing done; otherwise every streamed record is merged in order, and the counters, the persist calls and whether a failure escapes are those `IngestAccount` gives for the flush outcomes. On a memory backend every flush passes, the result is `Ok` with the number streamed and that number divided by the chunk size, rounded up, and that many persists |
| Batch.BatchProcessor.CommitAsStreamed | as.cpp:458-475 | the as-written consumer loop and final commit over the streamed records |
| Batch.BatchProcessor.Consume | as.cpp:459-467 | one record through the as-written consumer keeps the loop invariant and counts the record |
| Batch.BatchProcessor.IngestStrict | as.cpp:448-480 | corrected: a zero chunk size fails with nothing done; on success every record is merged, `processedRecords` is the number streamed, `batches` and the persist calls are that number divided by the chunk size and rounded up; a failure leaves a merged prefix pending; on a memory backend it always succeeds, with those metrics |
| Batch.BatchProcessor.ConsumeStrict | as.cpp:459-467 | one record through the corrected consumer commits a full chunk or buffers the record; if a commit fails, the failure is returned and not swallowed; on a memory backend no commit fails |
| Batch.BatchProcessor.CommitInChunks | as.cpp:458-475 | the corrected loop with the invariant that the buffer stays below the chunk size |
| LegacyFile.IsValidCondition | original.cpp:72-76 | true exactly for the five condition names |
| LegacyFile.ParseCarLine | original.cpp:78-123 | no record for an empty line, fewer than 3 tokens, a bad price, an invalid condition or a price not above 0; otherwise fields by position, with an absent or empty availability `Available` and an absent or empty due date `None` |
| LegacyFile.Serialize | original.cpp:125-130 | the five fields joined by commas |
| LegacyFile.LegacyRoundTrip | original.cpp:78-130 | parsing the serialised line of a storable car gives the car |
| LegacyFile.LegacyOneLine | original.cpp:125-130 | the line of a storable car holds no newline |
| LegacyFile.MadeRecordRoundTrip | original.cpp:189-197 | `makeRecord` gives an available car with no due date that survives the codec |
| LegacyFile.SerializeLines | original.cpp:153-158 | one line per car |
| LegacyFile.ParsedCars | original.cpp:137-151 | the cars read have a valid condition and a positive price, and are no more than the lines |
| LegacyFile.ParsedSerializedCars | original.cpp:137-158 | the lines of storable cars parse back to the cars |
| LegacyFile.LinesOfSerialized | original.cpp:137-160 | the rendered file of storable cars splits back into their lines |
| LegacyFile.SaveThenLoad | original.cpp:172-178 | `saveCars` then `loadCars` gives back storable cars when the device kept every line |
| LegacyFile.Without | original.cpp:393-400 | the delete edit removes every car of the model and keeps no more than the list |
| LegacyFile.WithoutKeeps | original.cpp:393-400 | every car of another model keeps its number of occurrences |
| LegacyFile.WithoutAppend | original.cpp:393-400 | removal distributes over concatenation, so the rest keep their order |
| LegacyFile.WithoutShrinks | original.cpp:393-400 | the length changes exactly when a car of the model was present; otherwise the list is unchanged |
| LegacyFile.FirstRented | original.cpp:1311-1313 | the first car of the model rented under the tag, or the length when there is none |
| LegacyFile.ConditionChoice | original.cpp:1321-1335 | choices `1` to `5` name the five valid conditions; anything else is refused |
| LegacyFile.Returned | original.cpp:1338-1340 | a returned car keeps its model and price |
| LegacyFile.Apply | original.cpp:368-400 | an edit that reports no change leaves the list as it was |
| LegacyFile.AddThenDelete | original.cpp:368-400 | adding an absent model and deleting it restores the list and both report a change |
| LegacyFile.ApplyKeepsStorable | original.cpp:368-400 | every edit keeps a list of storable cars storable |
| LegacyFile.CarList.Add | original.cpp:368-378 | a model already present is refused with nothing changed; otherwise exactly `makeRecord(…)` is appended |
| LegacyFile.CarList.Delete | original.cpp:393-400 | the list becomes `Without(model)`, and it reports whether the length changed |
| LegacyFile.CarList.Return | original.cpp:1311-1343 | finds the first car of the model rented by the user; a valid choice gives it that condition, `Available` and `None`; anything else changes nothing |
| LegacyFile.MutateCars | original.cpp:180-187 | returns the edit's report; when it reports no change nothing is written; when it does, the edited list goes through the legacy writer |
| LegacyRules.RatingLimit | original.cpp:1096-1106 | limits 4, 3, 2, 1 for the eight known ratings, 0 exactly for any other |
| LegacyRules.RatingValue | original.cpp:1377-1394 | a value in 2..9 exactly for the eight letters |
| LegacyRules.ValueRating | original.cpp:1405-1433 | a letter exactly for the values 2..9 |
| LegacyRules.RatingRoundTrip | original.cpp:1377-1433 | letter to value to letter is the identity |
| LegacyRules.ValueRoundTrip | original.cpp:1377-1433 | value to letter to value is the identity on 2..9 |
| LegacyRules.LimitIsHalfValue | original.cpp:1096-1106 | the limit table is the rating value halved and rounded down |
| LegacyRules.Clamp | original.cpp:1403 | `max(2, min(9, v))` is in 2..9 and is the identity there |
| LegacyRules.Delta | original.cpp:1397-1401 | choice `1` adds 2, `4` or `5` subtract 1, anything else nothing |
| LegacyRules.AdjustRating | original.cpp:1377-1435 | an unknown letter aborts; otherwise the result is one of the eight letters, and its value is the old value moved by the choice and clamped |
| LegacyRules.ExcellentRaises | original.cpp:1377-1435 | an excellent return never lowers the rating and raises every rating below `A+` |
| LegacyRules.DamageLowers | original.cpp:1377-1435 | a damaged return never raises the rating and lowers every rating above `D` |
| LegacyRules.OtherChoiceKeeps | original.cpp:1377-1435 | any other choice keeps the rating |
| LegacyRules.RentedCount | original.cpp:1117-1124 | no more rented cars than cars |
| LegacyRules.RentedCountUpdate | original.cpp:1117-1124 | replacing one car changes the count by the difference of the two cars' contributions |
| LegacyRules.ReturnFreesSlot | original.cpp:1311-1343 | a return that goes through lowers the user's rented count by exactly one |
| LegacyRules.UserPos | original.cpp:1081-1112 | the first user-file line with the id, or the length when there is none |
| LegacyRules.LimitRead | original.cpp:1081-1112 | the lookup ends with the limit of the user's line, else of the last line read, else 0 |
| LegacyRules.RentableCars | original.cpp:1068-1140 | 0 when the user file cannot be opened; otherwise the limit read less the user's rented cars when the user or any such car was found, and 0 when neither was; never more than 4 |

## Left out

- Price: read by a decimal-digit parser, not `std::stod`. Fractions, exponents, signs, whitespace and trailing characters after the digits are not modelled. The model prints every price in plain decimal, whereas default `ostream` precision prints prices of 10^6 and above in scientific form, which reads back rounded. `CarRecords.Storable` and `LegacyFile.LegacyStorable` therefore bound the price below 10^6, so the round-trip lemmas claim only what holds of the source. This applies to `CarRecords.Serialize`, `CarRecords.Parse`, `LegacyFile.Serialize` and `LegacyFile.ParseCarLine`.
- Characters: strings are sequences of Unicode code points, where `std::string` holds bytes. The delimiters are ASCII and UTF-8 preserves code-point order, so splitting, parsing and sorting agree. `FileSystem.Stored` under `DiskFull(capacity)` truncates after `capacity` characters, however, where a real device truncates after `capacity` bytes, possibly inside a multi-byte sequence.
- Commas inside fields: neither codec escapes them, and the round-trip lemmas require comma-free fields.
- `create_directories`, the current-directory fallback for a bare file name and the 64 KiB buffers: no effect on contents.
- An existing file that cannot be opened for reading, where `stream` throws: reading is modelled as always possible.
- Repository.CarRepository.Update: requires the mutator to keep the record's id. The source allows a mutator that changes it, leaving the map's key and the record's id apart.
- Faults: every write sees one injected `Fault` fixed for the disk. Faults that vary from write to write are not modelled. Ingestion may hit the same file it persists to; its stream reads the file's contents as they were when ingestion began.
- Batch.BatchProcessor.Ingest and Batch.BatchProcessor.IngestStrict: success is derived for a memory backend only. On a file backend, which flushes pass is left to the ghost outcomes `flushes` (or to the returned result), not derived from the disk's fault and contents.
- LegacyFile.MutateCars: takes an `Edit` value (add, delete or return) instead of an arbitrary callback. These are the three edits the menu code passes.
- Durations and `std::chrono` in the batch metrics, `SyntheticDatasetGenerator`, the CLI commands and `main`, and the interactive menus: not part of this model.
- LegacyRules.AdjustRating: the rewrite of the user file through `temp_emp.txt` is left out; only the rating arithmetic is modelled. The user file reaches `LegacyRules.RentableCars` already split into (id, rating) lines, and a malformed id, on which `stoi` throws, is not modelled.
- Fines, due dates, the employee discount and the car search by price: these use floating point and the clock.

## Findings

| source | as written | input that shows it | evidently intended | confidence | as-written member | corrected member |
|---|---|---|---|---|---|---|
| as.cpp:133-137 | the temporary file's write and close are never checked, so a device that fills up still leads to the rename | a full device with capacity 0 writing one line over a one-line file: the write reports success and the target is empty | a failed or short write fails the operation and leaves the target untouched | high, not executed | FileSystem.TransactionalShortWrite | FileSystem.AtomicWrite |
| as.cpp:139-142 | the target is removed before the rename, and a rename that fails leaves no target | an existing target with a rename that fails | the rename replaces the target in one step, or the old target survives a failure | high, not executed | FileSystem.TransactionalRenameFailure | FileSystem.AtomicWrite |
| as.cpp:458-467 | a flush that fails inside the stream's per-line handler is caught as a skipped line. The full buffer stays, later records join it, and the batch count no longer matches the records | chunk size 1 and two records, where the first flush fails and the second succeeds: `processedRecords` 2 with `batches` 1 | an IO failure aborts the ingestion, and a successful ingestion reports the number of records divided by the chunk size, rounded up | medium, not executed | Batch.SwallowedFlushMiscounts | Batch.BatchProcessor.IngestStrict |
