# Backup and restore for the stock ledger service

A Dafny model of the backup/restore core of a small Express service that keeps
its tables in a hosted Postgres store and its backups in the store's object
bucket `backups`:

- **`doBackup`** (backup.js) exports six tables (`sales`, `purchases`, `items`,
  `customers`, `app_users`, `sale_returns`). Each table becomes a CSV member
  `<table>.csv`: a header made of the first record's keys, then one line per
  record with every field passed through `JSON.stringify`. The members are
  packed into `backup_<YYYY-MM-DD_HH-mm-ss>.zip`, which is uploaded with
  upsert, and a progress value is reported after every step.
- **`restoreFromBucket`** (restoreFromBucket.js) restores from such an
  archive in the bucket. It is password-guarded and works either "full" (five
  tables, `sale_returns` excluded) or one named "table". Each table is
  decoded with a quote-toggle scanner, its rows with `id <> 0` are deleted,
  and the decoded rows are inserted in one call. A failed insert aborts the
  run.
- **`restoreBackup`** (restore.js) restores from an uploaded archive. It
  covers all six tables and inserts line by line, splitting on raw commas
  and stripping one quote from each end of a token. No store result is
  inspected.
- **`listBackups`** (listBackups.js) lists the bucket by name, descending,
  with sizes formatted as B, KB or MB.
- **`/api/archive-preview`** (archive-preview.js) summarises the purchases,
  sales and returns of a period per item code.
- **`/api/archive-transfer`** (archive-transfer.js) copies such a summary
  into `opening_stock`.

## How the model is built

- **Values.** JavaScript values are `Js.Value` (null, strings, integers,
  booleans). `None` of an `Option` stands for `undefined`.
- **Records.** A record is an ordered list of `(key, value)` pairs
  (`Js.Object`) in insertion order. `Object.keys` lists them in that
  order, and assigning a property replaces its value in place or appends
  it. Integer-like keys and the key `__proto__` behave differently in
  JavaScript; see "Left out".
- **Store and bucket.** The store is a map from table name to its rows
  (`Store.Db`). The bucket maps object names to archives, and an archive is
  its list of members.
- **Collaborators.** Every collaborator outcome is a parameter of the model:
  which fetches, deletes and inserts fail, whether the download or the
  extraction fails, and the error messages. This covers the store, the
  bucket, zip/unzip and the clock.

Modules:

- `Js`: truthiness, `String()`, records, `JSON.stringify`.
- `Text`: split, join, trim, decimals, padding and string order.
- `Store`: tables and the delete filter.
- `CsvEncode`, `CsvScan`, `CsvDecode`: the two halves of the CSV codec.
- `RoundTrip`: decode after encode, for the bucket restore.
- `UploadRoundTrip`: the same for the upload restore.
- `Naming`: timestamps and archive names.
- `Progress`: the percentage reported after each step, shared by the backup job and the upload restore.
- `Backup`, `BucketRestore`, `UploadRestore`: the three jobs.
- `EndToEnd`: backup followed by a bucket restore.
- `Listing`, `Preview`, `Transfer`: the remaining operations.

## Model

| member | source | states |
|---|---|---|
| Backup.DoBackup | backup.js:17-103 | A failing archive step makes the job report failure with the step's error message and leaves the bucket unchanged. Otherwise the job reports "Backup completed successfully" whether or not the upload worked. The bucket changes only when both the archive step and the upload succeed. |
| Backup.ExportableSpec | backup.js:43-48 | A table is exported exactly when it is listed and its fetch succeeds, and no more tables are exported than are listed. |
| Backup.ExportableAppend | backup.js:43-48 | The export keeps list order: exporting two lists in sequence gives the first list's exports followed by the second's, and a single table is exported once when its fetch succeeds and not at all when it fails. |
| Backup.ExportMembers | backup.js:43-64 | The archive holds one member per table whose fetch succeeded, in table order. Each member is named `<table>.csv` and holds the encoding of that table's rows. |
| Backup.ExportSteps | backup.js:37-38 | The export loop writes one progress value per exported table. The k-th value is floor(100·k/8). |
| Progress.PercentMonotone | backup.js:63 | More completed steps never report a smaller percentage, for any step count. |
| Backup.BackupProgress | backup.js:37-38 | The progress values of a run never decrease. There is one per exported table, plus the archive's value and a final 100 when the archive step succeeds. Every value before the final 100 is at most 87. |
| Backup.BackupUpload | backup.js:69-99 | When the archive step succeeds, the job reports success. Unless the upload fails, the object `backup_<timestamp>.zip` then holds exactly the exported members, and every other object and name in the bucket stays as it was. A failed upload leaves the bucket unchanged. |
| Naming.PadsAreFixed | backup.js:21 | For valid times, each field of the timestamp is its zero-padded fixed-width numeral. |
| Naming.StampOrder | backup.js:21 | For valid times, the timestamp strings compare lexicographically exactly as the times compare chronologically. Two timestamps are equal only for equal times. |
| Naming.ArchiveNameOrder | backup.js:69 | For valid times, archive names order exactly as the times do, and distinct times get distinct names. |
| Naming.InstantIsChronological | backup.js:21 | An independent seconds-like clock orders valid times the same way the field-by-field chronological order does. |
| CsvEncode.CellHasNoLineFeed | backup.js:55 | No encoded field contains a line feed. |
| CsvEncode.RowHasNoLineFeed | backup.js:55 | No encoded data line contains a line feed. |
| CsvEncode.EncodeLines | backup.js:51-58 | An encoded member splits on line feeds into the header (the first record's keys joined by commas) followed by exactly one line per record. An empty table is the single line feed. |
| Js.EscapeIdentityIffPlain | backup.js:55 | `JSON.stringify` leaves a string's body unchanged exactly when the string has no quote, backslash or control character. |
| Js.EscapeQuotesAndLines | backup.js:55 | A stringified string contains a quote only when the original did, and never a line feed. |
| Js.AssignLookup | restoreFromBucket.js:101-103 | Assigning a property sets it and leaves every other property's value as it was. |
| Js.AssignKeys | restoreFromBucket.js:101-103 | Assigning a new key appends it to the key order. Assigning an existing key keeps the order. |
| Text.JoinSplit | restoreFromBucket.js:92 | Joining the pieces of a split with the same separator gives back the original text. |
| Text.SplitJoin | restore.js:66-67 | Splitting a join of separator-free pieces gives back the pieces. |
| Text.TrimEmptyIffBlank | restoreFromBucket.js:97 | A line trims to the empty string exactly when it consists only of white space. |
| CsvScan.SplitCsvCount | restoreFromBucket.js:124-147 | The scanner yields one more field than there are commas outside quotes. |
| CsvScan.SplitCsvQuoteFree | restoreFromBucket.js:124-147 | No field the scanner yields contains a double quote. |
| CsvScan.SplitCsvJoin | restoreFromBucket.js:124-147 | Joining the scanner's fields with commas gives the line with its quotes removed, so no other character is lost or moved. |
| CsvDecode.NonBlankSpec | restoreFromBucket.js:95-97 | The line filter keeps a line alone exactly when it is not blank. It keeps every line of an all-non-blank list and none of an all-blank one, and everything it keeps is non-blank. |
| CsvDecode.NonBlankAppend | restoreFromBucket.js:95-97 | Filtering a concatenation filters each part and concatenates the results. With the one-line case this makes the output exactly the non-blank lines, in order. |
| CsvDecode.BuildRowDistinct | restoreFromBucket.js:100-103 | With distinct header names, the decoded object has the header's keys in order. Each key holds its token, or null when the token is empty or missing. |
| CsvDecode.BuildRowKeys | restoreFromBucket.js:100-103 | A decoded object has each header name exactly once and no other key, including when header names repeat. |
| CsvDecode.DecodeTableShape | restoreFromBucket.js:92-105 | A member decodes to one object per non-blank line after the header. With a distinct header, each object carries exactly the header's keys. |
| RoundTrip.DecodeEncode | restoreFromBucket.js:92-105 | Decoding a member the backup job wrote for an encodable table gives one object per record, in order, keyed by the first record's keys. Each field reads back as its text without the JSON quotes, or null when that text is empty. |
| RoundTrip.DecodeEncodeExact | restoreFromBucket.js:92-105 | Records that share the same keys and hold only non-empty plain strings come back exactly. |
| Store.SurvivingRowsSpec | restoreFromBucket.js:108 | The delete `id <> 0` keeps exactly the rows whose id is 0 or null, in order. Deleting twice removes nothing more. |
| BucketRestore.RestoreTable | restoreFromBucket.js:88-119 | Restoring a table either inserts every decoded row or none, depending only on the insert. The table then holds the rows the delete spared, followed by the decoded rows when the insert succeeded. No other table changes. |
| BucketRestore.RestoreFromBucket | restoreFromBucket.js:12-83 | A wrong password is rejected before anything else, then a falsy file name. A failed download or extraction changes nothing. An unknown mode changes nothing. Success implies the request passed both guards and the archive was extracted. |
| BucketRestore.FullRestore | restoreFromBucket.js:55-62 | A full restore that succeeds replaces every listed table that has a member and leaves all others as they were. A failure answers with the insert's own error message, from the first listed table that has a member and whose insert failed. The tables before it are replaced, it keeps only the rows the delete spared, and the tables after it are untouched. `sale_returns` is never touched. |
| BucketRestore.TableRestore | restoreFromBucket.js:67-77 | A single-table restore of a name without a member reports it and changes nothing. Otherwise only the named table changes. It is replaced, or, when the insert fails, left with the rows the delete spared while the reply carries the insert's error message. |
| BucketRestore.RestoreTwice | restoreFromBucket.js:107-111 | Repeating a restore of a table leaves it as the first restore did exactly when every decoded row has an id the delete selects. Otherwise the spared rows are duplicated. |
| UploadRestore.RestoreBackup | restore.js:13-103 | A wrong password gives 403, a missing file gives 200 with ok=false, and an unzip error gives 500 with that error's message; in those three cases nothing changes. The reply is ok exactly when the upload was unzipped, and an ok reply ends the progress with 100. |
| UploadRestore.StripQuotesUnwraps | restore.js:77-78 | Stripping removes exactly one pair of surrounding quotes, whatever the token holds. |
| UploadRestore.StripQuotesOneSided | restore.js:77-78 | A token quoted at one end only loses that quote. A token with no quote at either end is kept as it is. |
| UploadRestore.LineRowDistinct | restore.js:70-81 | With distinct headers, the row inserted for a line has one property per token, up to the number of headers, each holding the token stripped of its quotes. Headers past the last token are absent from the row. |
| UploadRestore.InsertedFromSpec | restore.js:69-84 | An insert error is ignored and the loop goes on. There is one inserted row per line whose insert succeeded. The row of such a line comes right after the rows of the successful lines before it, so the rows follow line order. With no failures there is one row per line, blank lines included. With every insert failing there are none. |
| UploadRestore.RestoreEachEffect | restore.js:58-89 | Each listed table with a member is restored from the state before the loop. Tables without a member, and tables off the list, are left alone. |
| UploadRestore.ProgressRises | restore.js:52-53 | The progress values have one entry per restored table plus a final 100. They never decrease and never exceed 100. |
| UploadRestore.UploadRestore | restore.js:58-91 | An accepted upload restores every listed table whose member it holds and leaves every other table alone. Its progress rises to 100. |
| UploadRoundTrip.BareRow | restore.js:70-81 | A line the backup job encoded from bare fields reads back as the record's field texts under its columns. |
| UploadRoundTrip.EncodedTrimmed | restore.js:66 | Trimming does not alter a member the backup job wrote for a non-empty table whose first column name does not start with white space. |
| UploadRoundTrip.UploadDecodeEncode | restore.js:66-84 | Restoring an uploaded member the backup job wrote inserts one row per record, in order, with no insert failing. Each row has exactly the table's columns and holds the fields' texts as strings. |
| EndToEnd.ExtractMembers | backup.js:79 | Extracting the archive gives the file `<t>.csv` exactly for the exported tables, each holding that table's encoding. |
| EndToEnd.UploadedArchive | backup.js:69-95 | The archive uploaded by a successful run, once extracted, is exactly the set of exported members. |
| EndToEnd.RestoreArchive | restoreFromBucket.js:55-62 | A full restore of such an archive, with no insert failing, succeeds. Each restored table with a member holds the spared rows followed by the saved records as the decoder reads them back. |
| EndToEnd.BackupThenRestore | backup.js:43-99 | Backing up and then fully restoring the uploaded archive succeeds. Each of the five restored tables whose export succeeded holds the rows the delete spared followed by the saved records as decoded. Every other table keeps its rows. |
| Listing.Hundredths | listBackups.js:29 | The hundredths `toFixed(2)` shows are the quotient rounded to the nearest hundredth, ties going up. |
| Listing.RoundsUnique | listBackups.js:29 | That rounding has exactly one result, and it is non-negative for a non-negative size. |
| Listing.ToFixedDigits | listBackups.js:29-31 | `toFixed(2)` renders the integer part without leading zeros, a point and exactly two digits. |
| Listing.FormatSize | listBackups.js:27-33 | A size of at least 2^20 bytes shows the rounded number of megabytes with two decimals and " MB". A size of at least 2^10 bytes shows kilobytes with " KB". Anything smaller shows the bare byte count with " B". |
| Listing.FormatSizeKilobytes | listBackups.js:30-31 | 1024 bytes show as "1.00 KB" and 1536 bytes as "1.50 KB". |
| Listing.FormatSizeLastKilobytes | listBackups.js:30-31 | 1048575 bytes round up to "1024.00 KB". |
| Listing.FormatSizeMegabytes | listBackups.js:28-29 | 1048576 bytes show as "1.00 MB". |
| Listing.FormatSizeBytes | listBackups.js:32 | 0 bytes show as "0 B" and 1023 bytes as "1023 B". |
| Listing.ListBackups | listBackups.js:12-24 | An error or a missing listing gives no items. Otherwise there is one item per object, in the listing's order, with the object's name and formatted size. A missing size shows "0 B". |
| Listing.NewestFirst | listBackups.js:13-15 | When archive names come back in descending string order, the items run from the newest backup to the oldest. |
| Preview.Bump | archive-preview.js:50 | Adding a quantity changes only the addressed category's counter and keeps the code and name. |
| Preview.ArchivePreview | archive-preview.js:4-77 | The handler answers "Missing dates" exactly when a date is falsy. Otherwise there is one row per item code found in any of the three result sets, except codes that name an inherited `Object.prototype` property. Each row's counters are the sums of `Number(qty \|\| 0)` over that code's purchases and sales and of `Number(return_qty \|\| 0)` over its returns. |
| Preview.ArchivePreviewCorrected | archive-preview.js:43-71 | The corrected handler has one row for every code found, with the same sums. |
| Preview.CodesSpec | archive-preview.js:46-67 | A code appears in a result set exactly when some line carries it. |
| Preview.SummaryRows | archive-preview.js:43-71 | The summary has one row per code of the three result sets. Each counter is its category's total for the code, 0 when the category lacks it. The code and name come from the code's first line, purchases before sales before returns. |
| Preview.SummaryAsWritten | archive-preview.js:43-71 | The summary the plain-object map builds is the intended summary minus every code that names an `Object.prototype` property. |
| Preview.InheritedCodeDropped | archive-preview.js:47-48 | A purchase of item code "toString" is missing from the summary as written, while the intended summary lists it with quantity 3. |
| Transfer.ArchiveTransfer | archive-transfer.js:4-31 | The handler answers "Invalid data" exactly when rows or a date is falsy, and succeeds exactly when rows is an array, both dates are truthy and the insert succeeds. A failed insert answers its error message. Any failure leaves the store unchanged. Success appends exactly one row per summary row to `opening_stock`, after its existing rows, and touches no other table. |
| Transfer.EntryShape | archive-transfer.js:11-19 | Each batch entry has exactly the seven properties, in order. The five copied fields hold the summary row's values, and the two dates hold the request's. |
| Transfer.StoredEntry | archive-transfer.js:11-21 | The stored row holds the summary row's defined copied fields and the two dates, and no other property. |
| Transfer.TransferRows | archive-transfer.js:11-26 | After a successful transfer, the i-th appended row carries the i-th summary row's copied fields and the request's dates, and nothing else. |

## Left out

- **Route wiring.** server.js and db.js are not part of this model: route wiring, the upload middleware and the store client.
- **Store queries.** Calls into the hosted store and bucket are parameters, not code: the result of each fetch, delete, insert, download and upload, and its error message.
- **Preview date filter.** The filter in archive-preview.js (`gte`, `lte` and `eq("is_deleted", false)`) happens in the store. The three result sets are therefore inputs.
- **Zip format.** Zip packing and unpacking, compression, temporary folders and files are not modelled. An archive is its list of members, and extraction gives a name→text map in which a later member of the same name wins.
- **Filesystem exceptions.** `mkdirSync`, `writeFileSync`, `readFileSync` and `existsSync` are assumed to succeed. Of the throwing paths in backup.js, only the archive step failing is modelled. In restore.js, only an unzip error is modelled.
- **Clock and time zone.** The clock and the Asia/Karachi conversion are not modelled: the civil time is an input. The listing's `date` field and `Date.now()` folder names are omitted.
- **Logging.** `console.log` calls are omitted.
- **Concurrency.** Interleaving between requests is not modelled; every `await` runs in sequence.
- **Numbers.** Numbers are integers. Floating-point values, `-0`, `NaN` or `Infinity` held in a record, and integers beyond 2^53 are not modelled. Nor is `JSON.stringify` of objects and arrays inside a record.
- Backup.Percent and UploadRestore.Percent: `Math.floor((step / totalSteps) * 100)` is integer division. This is exact for eight and six steps, because the float quotient is a binary fraction or lies well away from an integer.
- Preview.Quantity: `Number()` of a string is modelled for empty text and plain decimal digits. Signs, fractions, exponents, hex and "Infinity" are all taken as NaN.
- **Preview row order.** `Object.values` lists integer-like keys first. The model returns a map keyed by code, so the order of the summary rows is not modelled.
- Preview.SummaryAsWritten: when a code names an inherited property, `+=` writes a counter onto the inherited value. For "toString" it sets `purchase_qty` to NaN (undefined + 3) on the function `Object.prototype.toString`. Only "__proto__" writes to `Object.prototype` itself. Only the code's disappearance from the summary is modelled, not these writes.
- CsvEncode.EncodeLines: the header is `Object.keys(data[0])`, which lists integer-like keys first in ascending order. The model keeps insertion order, so its header differs for a table with an integer-like column name.
- CsvDecode.BuildRowKeys: `obj["__proto__"] = v` sets the object's prototype (or is ignored for a string value) instead of adding an own property. The model adds a `__proto__` property, so it differs for a header naming that column.
- UploadRestore.LineRowDistinct: the same `__proto__` assignment applies to the row built for a line, and the model adds a property there too.
- Transfer.ArchiveTransfer: array elements that are null or not objects make `r.item_code` throw, and this is not modelled. A truthy non-array `rows` answers V8's TypeError text; other engines word it differently.
- Listing.FormatSize: sizes are integers. A `metadata.size` that is not a number, and values of 10^21 or more (which `toFixed` prints in exponent form), are not modelled.
- **Path traversal.** `fileName` and `table` are joined into file paths without checks. Only the lookup of `<table>.csv` among the members is modelled.
- **Strings.** Strings are sequences of Unicode scalar values. Lone surrogates and their `JSON.stringify` escaping are not modelled.
- RoundTrip.DecodeEncode: the promise covers only tables whose string fields contain no double quote. The scanner does not undo `JSON.stringify`'s `\"` escape, so such fields do not read back.
- **Behaviour of the code.** An empty table encodes as "\n". The bucket restore inserts each table's rows in a single call. The upload restore inserts row by row. No code deletes old archives. Temporary files and folders are never removed.

## Findings

| source | as written | input that shows it | evidently intended | confidence | as-written member | corrected member |
|---|---|---|---|---|---|---|
| archive-preview.js:47-48 | The summary is built on `const map = {}`. The guard `!map[code]` reads inherited `Object.prototype` properties, which are truthy, so a code such as "toString" gets no row. Its quantities are written onto the inherited value instead, for "toString" as a NaN `purchase_qty` on the function `Object.prototype.toString`. The same holds at archive-preview.js:55-56 and 63-64. | A purchase `{item_code: "toString", item_name: "Widget", qty: 3}` | Every item code in the three result sets gets its own row with its summed quantities, using a prototype-free map or an own-property test. | not executed; high, from JavaScript property lookup semantics | Preview.ArchivePreview, Preview.SummaryAsWritten, Preview.InheritedCodeDropped | Preview.ArchivePreviewCorrected, Preview.SummaryRows |
