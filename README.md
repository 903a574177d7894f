# Vaccination tracker core, modelled in Dafny

The tracker is a browser dashboard for barangay health workers. It keeps each
child's vaccination record in `localStorage`, under one key per
(barangay, sitio) pair. The key is `hp_children_` followed by the barangay,
`__` and the sitio. A health worker imports records from a CSV file into the
locality chosen at login, clears them, or downloads them as CSV again. The
admin view gathers the records of every enumerated locality and computes
completion statistics and per-vaccine counts.

This project models that core from `js/app.js`:

- the CSV reader and writer (`parseCSV`, `toCSV`);
- the storage key;
- the two aggregation loops (`getBarangayData`, `getAllData`);
- the statistics loops (`computeCompletionStats`, `computeVaccineCounts`);
- the import, clear and download handlers, cut away from the DOM.

Modules, one file each:

- `wrappers.dfy`: `Option` and `Result`.
- `jsstring.dfy`: the JavaScript string operations the core depends on:
  - `trim` with ECMAScript's white-space set;
  - `toLowerCase` on ASCII letters;
  - `indexOf`;
  - `String(n)` and `Number(s)` on integers.
- `csv.dfy`: the `parseCSV` state machine, written as a pure scanner (`Scan`, `Parse`), and the `while` loop itself (`ParseCSV`). Then `toCSV` and the round trip between the two.
- `records.dfy`: the constants, the child record and `storageKeyFor`.
- `stats.dfy`: the completion test and the two statistics loops.
- `import.dfy`: the import handler from parsed rows to the list it stores, and the export row builder.
- `store.dfy`: `localStorage` as a map from keys to entries, the aggregation specifications, and a `LocalStore` class. Its methods are the two aggregation loops and the import, clear and download buttons.

A stored entry is `Some(list)` when its text is a JSON array of records.
It is `None` when its text is present but the `try` block throws.
A key that is absent from the map has no entry.

## Model

| member | source | states |
|---|---|---|
| Records.StorageKeyFor | js/app.js:13-15 | the key is the data prefix, the barangay, `__` and the sitio: its length is the sum of the parts and it starts with the prefix |
| Records.KeyInjective | js/app.js:13-15 | for barangays of equal length, two keys are equal if and only if both pairs are equal |
| Records.EnumeratedKeysDistinct | js/app.js:9-15 | the fifteen enumerated (barangay, sitio) pairs have pairwise distinct keys, in both directions |
| Records.KeysCanCollide | js/app.js:13-15 | outside the enumerations two different pairs can share a key, because `__` may occur inside a name |
| JsString.Trim | js/app.js:27-34 | `String.prototype.trim` with ECMAScript's white-space set; `JsString.TrimStartSpec` and `JsString.TrimEndSpec` state that exactly the leading and trailing white space is removed, `JsString.TrimSpec` and `JsString.TrimIdempotent` its consequences |
| JsString.TrimStartSpec | js/app.js:27-34 | the leading part dropped is all white space, and what is left is the rest of the string, starting with no white space |
| JsString.TrimEndSpec | js/app.js:27-34 | the trailing part dropped is all white space, and what is left is the start of the string, ending with no white space |
| JsString.TrimSpec | js/app.js:27-34 | `trim` leaves no white space at either end, never lengthens a string, and leaves a trimmed string as it is |
| JsString.TrimIdempotent | js/app.js:27-34 | trimming twice is trimming once; a string is trimmed exactly when `trim` leaves it unchanged |
| JsString.LowerEqualsSpec | js/app.js:159 | the character-by-character comparison is the same as comparing the lower-cased string |
| JsString.IndexOf | js/app.js:325-335 | `indexOf` gives -1 exactly when the name is absent, and otherwise the first position holding it |
| JsString.IntToString | js/app.js:40 | `String(v)` of an integer age: digits only for `n >= 0`, a minus then digits for `n < 0`, with no leading zero except in `0` itself; `JsString.JsNumberOfIntToString` reads it back |
| JsString.JsNumber | js/app.js:345 | `Number(cell)` on a decimal integer with optional sign and surrounding white space, 0 for a blank cell; `JsString.JsNumberOfIntToString` states that it inverts `IntToString` |
| JsString.JsNumberOfIntToString | js/app.js:345 | `Number(String(n))` is `n` for every integer |
| Csv.Step | js/app.js:22-33 | one turn of the `while` loop consumes one character, or two for an escaped quote or a CRLF pair |
| Csv.KeepNonBlank | js/app.js:35 | the filter keeps exactly the rows that are not blank, never lengthens the list, and keeps every row when none is blank |
| Csv.KeepNonBlankInOrder | js/app.js:35 | the filter keeps the rows in order: a single row is kept exactly when it is not blank, and filtering a concatenation concatenates the filtered parts |
| Csv.Parse | js/app.js:18-36 | what `parseCSV` returns; its shape is stated by `Csv.ParseShape`, the `while` loop is proved equal to it by `Csv.ParseCSV`, and `Csv.SerializeRoundTrip` makes it the inverse of the writer |
| Csv.ParseShape | js/app.js:18-36 | every row `parseCSV` returns has at least one field, is not blank, and holds only trimmed fields |
| Csv.ParseCSV | js/app.js:18-36 | the `while` loop returns what the scanner specification gives, and every row has the shape above |
| Csv.EscapedQuoteStep | js/app.js:24-25 | inside quotes, `""` puts one quote into the field |
| Csv.OpenQuoteStep | js/app.js:24-26 | outside quotes, a quote opens a quoted run without adding to the field |
| Csv.CommaStep | js/app.js:27 | outside quotes, a comma ends the field and pushes it trimmed |
| Csv.QuotedRunKept | js/app.js:24-31 | inside quotes, commas and line breaks are kept as field text |
| Csv.QuotedFieldRead | js/app.js:24-31 | a quoted field with its quotes doubled reads back as the original text |
| Csv.CrLfAsLineFeed | js/app.js:28-30 | outside quotes, CRLF ends a row as LF alone does |
| Csv.CrAsLineFeed | js/app.js:28-30 | outside quotes, a lone CR ends a row as LF does |
| Csv.EncodeField | js/app.js:39-41 | a field is changed (quoted, with quotes doubled) if and only if it contains `"`, `,` or LF |
| Csv.EscapeLength | js/app.js:41 | doubling the quotes never shortens a field |
| Csv.EncodeRowIsJoin | js/app.js:39-42 | a written row is the encoded fields joined by commas |
| Csv.SerializeIsJoin | js/app.js:42 | the written text is the written rows joined by LF |
| Csv.FieldRoundTrip | js/app.js:24-43 | reading a written field gives the field back, when it has no CR |
| Csv.RowRoundTrip | js/app.js:18-43 | reading a written row gives the row back, when its fields are trimmed and have no CR, and the row is not blank |
| Csv.SerializeRoundTrip | js/app.js:18-43 | `parseCSV` of the written rows gives back the rows, under the same conditions |
| Csv.ToCSV | js/app.js:38-43 | `toCSV`: each cell's string form, encoded and joined by commas, rows joined by LF; `Csv.EncodeRowIsJoin` and `Csv.SerializeIsJoin` state the two joins, and `Csv.ToCsvRoundTrip` reads the text back |
| Csv.ToCsvRoundTrip | js/app.js:18-43 | `parseCSV(toCSV(rows))` is every cell's string form |
| Csv.ParseSerializeParse | js/app.js:18-43 | writing the rows `parseCSV` returned and parsing them again gives the same rows, when no field holds a CR |
| Csv.QuotedFieldParse | js/app.js:24-34 | a quoted, trimmed, non-empty field without quotes reads as one row of that field, CR and LF included |
| Csv.CrSplitParse | js/app.js:28-34 | outside quotes, a CR between two plain characters splits them into two rows |
| Csv.QuotedCrLost | js/app.js:18-43 | the reverse round trip fails on a quoted field holding a CR: `"a<CR>b"` reads as one field, is written back unquoted, and then reads as two rows |
| Stats.IsAcceptedIsLowerCaseMatch | js/app.js:159 | a status counts as accepted exactly when it lower-cases to `accepted` |
| Stats.CompleteIffFourAccepted | js/app.js:159 | a record is complete exactly when its BCG, OPV, Pentavalent and Measles statuses are all accepted |
| Stats.CompleteCount | js/app.js:156-163 | the number of complete records never exceeds the number of records |
| Stats.AcceptedCount | js/app.js:165-173 | the count for one vaccine never exceeds the number of records |
| Stats.ComputeCompletionStats | js/app.js:156-163 | the loop counts the complete records, and complete plus incomplete is the number of records |
| Stats.ComputeVaccineCounts | js/app.js:165-173 | the result has a count under each of the four vaccines, and it is the number of records with that vaccine accepted |
| Stats.CountsOfConcat | js/app.js:156-173 | both statistics of a concatenation are the sums of the statistics of the parts |
| Stats.CompleteBelowAccepted | js/app.js:156-173 | for each vaccine, complete ≤ accepted count ≤ number of records |
| Stats.AcceptedCountIsCardinality | js/app.js:165-173 | the count for a vaccine is the number of positions whose status for it is accepted |
| Import.LocateSpec | js/app.js:324-337 | the header map finds columns exactly when all nine names are present, each at its name's first occurrence |
| Import.ImportRejections | js/app.js:321-337 | the import is rejected as empty exactly when there are no rows, and for missing columns exactly when a required name is absent from the normalised header |
| Import.BuildRecords | js/app.js:339-354 | the import never builds more records than there are data rows |
| Import.BuildRows | js/app.js:339-354 | the `for` loop builds the records of the specification, in row order |
| Import.ImportRecords | js/app.js:320-354 | what the handler makes of the parsed rows; `Import.ImportRejections` states its rejections and `Import.ExportImportRoundTrip` its round trip with the download |
| Import.ImportRows | js/app.js:320-354 | the handler from parsed rows returns the rejection or the list of the specification |
| Import.BuildRecord | js/app.js:343-353 | the object literal pushed for one data row; `Import.CellsCopied` states each field and `Import.RecordRoundTrip` reads a written row back into its record |
| Import.CellsCopied | js/app.js:343-353 | child, parent and status cells are copied as they are, with no change of case, and a missing column gives the empty string; an empty or missing barangay or sitio cell takes the session's value; an empty or missing age is 0, and any other age is what `Number` reads in the cell |
| Import.LocalityNeverEmpty | js/app.js:347-348 | with non-empty session values, every imported record names a barangay and a sitio |
| Import.OneRecordPerRow | js/app.js:339-354 | with no empty data row, there is exactly one record per data row, in order |
| Import.ParsedImportOneRecordPerRow | js/app.js:320-354 | an accepted import of a parsed file has exactly one record per data row |
| Import.ExtraColumnsIgnored | js/app.js:324-337 | unknown columns after an accepted header leave the column map as it was |
| Import.ResolveInserted | js/app.js:324-337 | a header name that is not one of the nine, inserted at any position, accepts and rejects the same headers and moves every found column with it |
| Import.UnknownColumnIgnored | js/app.js:324-354 | a column whose name is not one of the nine, inserted at any position of the header and of every data row, leaves both a rejection and the imported records unchanged |
| Import.HeaderResolves | js/app.js:322-337 | the download's header is accepted by the import, with the nine columns in the order written |
| Import.RecordRoundTrip | js/app.js:341-352 | importing the row written for a record gives back that record, when its fields are clean, its locality fields are not empty, and its age is a number |
| Import.ExportImportRoundTrip | js/app.js:320-354 | importing the downloaded CSV of such records gives back the same records, in order |
| Store.GatherAppend | js/app.js:132-154 | gathering two runs of keys concatenates the two gathers |
| Store.AcrossIsGather | js/app.js:132-143 | the barangay-by-barangay concatenation is the gather of every visited key, in visiting order |
| Store.KeysForAt | js/app.js:134-136 | the nested loops visit every barangay with every sitio, the sitios varying fastest |
| Store.GatherMembership | js/app.js:132-154 | a record is gathered exactly when some visited entry holds it |
| Store.GatherReadsOnlyKeys | js/app.js:132-154 | the aggregation reads only the visited keys: stores that agree on them give the same records |
| Store.GatherSkipsEmpty | js/app.js:137-139 | a missing or unparsable entry contributes nothing |
| Store.ImportInto | js/app.js:320-357 | what the import button does to the store; `Store.ImportTouchesOnlySessionKey` and `Store.LocalStore.ImportCsv` state the new store |
| Store.ClearFrom | js/app.js:365 | what the clear button does to the store; `Store.ClearTouchesOnlySessionKey` states that only the session's entry goes |
| Store.ExportText | js/app.js:372-375 | the text the download produces; `Store.ReimportOwnExport` and `Store.ReimportEmptyExport` read it back |
| Store.ImportTouchesOnlySessionKey | js/app.js:356 | an accepted import stores its list under the session key and leaves every other entry as it was |
| Store.ImportKeepsOtherLocalities | js/app.js:356 | an import into an enumerated locality leaves every other enumerated locality's records as they were |
| Store.ImportKeepsOtherBarangays | js/app.js:145-154 | after an import, every other enumerated barangay reads the same records |
| Store.ClearTouchesOnlySessionKey | js/app.js:363-368 | clearing removes the session's entry and nothing else |
| Store.ClearKeepsOtherBarangays | js/app.js:145-154 | after a clear, every other enumerated barangay reads the same records |
| Store.ReimportOwnExport | js/app.js:371-375 | importing the session's own download, when its records are exportable, leaves the store as it was |
| Store.ReimportEmptyExport | js/app.js:371-375 | the download of a locality with no entry is the header alone, and importing it stores an empty list |
| Store.PushAll | js/app.js:139 | the `forEach` push appends the list to the output, in order |
| Store.BuildExportRows | js/app.js:373-374 | the download's rows are the header row, then one row per record in order |
| Store.LocalStore.Read | js/app.js:137-139 | an entry is read exactly when it exists and parses, and then it is that entry's list |
| Store.LocalStore.GetBarangayData | js/app.js:145-154 | the loop returns the records of the barangay's three sitios, in `SITIOS` order, skipping missing or unparsable entries |
| Store.LocalStore.GetAllData | js/app.js:132-143 | the nested loops return the records of every enumerated barangay, in `BARANGAYS` order |
| Store.LocalStore.ImportCsv | js/app.js:316-358 | a rejected import leaves the store unchanged; an accepted one replaces the session's entry by the imported list and changes nothing else |
| Store.LocalStore.ClearRecords | js/app.js:363-368 | the session's entry is removed and nothing else changes |
| Store.LocalStore.DownloadCsv | js/app.js:371-375 | the download's text is that of the entry's records, the header alone for a missing entry, and none when the entry does not parse |

## Left out

- Rendering, editing and deleting rows in the DOM, the charts, the `.xls` download, the login bootstrap and the navigation are not modelled: they only display data or read the session.
- The file dialog, `await file.text()`, `alert`, `confirm` and `refresh()` are I/O or display. The model takes the file's text and the session's barangay and sitio as parameters. A clear is modelled once it is confirmed.
- `JSON.stringify` and `JSON.parse` are not modelled byte by byte. A stored entry holds the list itself, and an entry that does not parse is `None`.
- A stored empty string is folded into `None`, but the two differ. The aggregation skips both. The download treats an empty string as `[]` while `None` makes it fail.
- Store.LocalStore.GetAllData: its inner loop is a call of `GetBarangayData`. The source repeats the same loop inline.
- JsString.JsNumber: `Number` is modelled on decimal integer numerals with an optional sign. Any other text gives `None`, which stands for NaN, but also for numerals with a decimal point or exponent and for hexadecimal, binary and octal numerals, whatever their value. For those the source stores the number and downloads its string form: "1.5" stays "1.5", "5.0" and "5." become "5", "1e3" becomes "1000", "0x10" becomes "16" and "0b11" becomes "3". The model stores `None` and downloads an empty cell.
- JsString.JsNumber: ages are unbounded integers, while the source's are doubles. `Number("9007199254740993")` rounds to 9007199254740992 in the source, but the model keeps the exact value.
- JsString.IntToString: it writes every integer in plain decimal digits. `String` writes a double of magnitude 10^21 or more in exponent form ("1e+21"), so the two differ there.
- JsString.Lower: lower-casing covers ASCII letters only.
  - This is exact for the comparisons the core makes (`accepted` and the nine column names).
  - The only non-ASCII character that lower-cases to an ASCII letter is the Kelvin sign, which becomes `k`, and none of those names contains `k`.
  - Lower-casing of other non-ASCII text is not modelled.
- Stats.ComputeVaccineCounts: its counts object is keyed by the `Vaccine` datatype rather than by the strings `"BCG"`, `"OPV"`, `"Pentavalent"` and `"Measles"`.
- The records are typed values, while the source's stored objects may hold anything JSON allows. `String(r[v] || "")` on a non-string status is not modelled.
- Csv.ToCsvRoundTrip: the round trip is proved for fields that are trimmed and contain no CR, in rows that are not blank. These conditions are sufficient, not necessary. Untrimmed fields and blank rows never survive, because `parseCSV` trims every field and drops blank rows. A field with a CR survives only when it also holds `"`, `,` or LF, because only then does `toCSV` quote it. The model does not state that case.
- Csv.ParseSerializeParse: the reverse round trip, `parseCSV(toCSV(parseCSV(text)))`, is proved only when no parsed field holds a CR. A quoted field may hold a CR, and `toCSV` writes it unquoted when nothing else forces quotes, so the row splits there (`Csv.QuotedCrLost`).
