# Google Sheets → Caspio transfer, modelled in Dafny

The script `src/sheet_caspio.py` copies rows from a Google Sheet into a
Caspio table over its REST API. It then marks each copied row by writing
"Copied" into the row's status column, column T ("Tình trạng update",
zero-based index 19), so that the next run skips it. Most of the script is
I/O. The decisions buried inside that I/O are pure, and this project models
them as functions over strings and sequences:

- **Row selection** (`read_google_sheet`), module `SheetReader`, file
  `reader.dfy`. The first row is the header. Every data row is padded with
  `''` to the header's width and numbered from 2. A row is kept when its
  cell at index 19 strips to the empty string; a missing cell reads as `''`.
- **Record mapping** (the inner loop of `send_to_caspio`), module
  `FieldMap`, file `field_map.dfy`. A column-index → field-name table turns
  a row into a field-name → stripped-value map. Columns past the end of the
  row are left out.
- **Account-id normalisation and the endpoints** (`get_caspio_token`,
  `send_to_caspio`), module `Endpoints`, file `endpoints.dfy`.
- **Token and post outcomes** (`get_caspio_token`, `send_to_caspio`),
  module `Sink`, file `sink.dfy`. The network is replaced by its answers:
  - the token exchange's reply is an input;
  - the reply to each posted record is an input;
  - the requests the script issues are outputs.
- **Status write-back** (`update_google_sheet_status`), module
  `StatusWriter`, file `status_writer.dfy`. The successful transfers become
  a list of cell writes. Applying those writes to the sheet's values is
  modelled as well, so that a lemma can state what the next run reads.
- **One run** (`transfer_data`), module `TransferRun`, file `transfer.dfy`.
  It combines the two authentications, the read, the posts and the
  write-back, and computes the result and the summary counts.
- **The unused header lookup** (`find_tinh_trang_column`), module
  `HeaderLookup`, file `header_lookup.dfy`.

Support modules:

- `Text` (`text.dfy`) models Python's `strip()`, `lower()`, `endswith()`
  and `replace(p, '')`.
- `Seqs` (`seqs.dfy`) gives the reference definition of an
  order-preserving filter, `Positions`, which every selection is proved to
  follow.
- `Wrappers` (`wrappers.dfy`) holds `Option`.

Outside answers are parameters:

- whether the Google authentication succeeded;
- the token reply (`TokenReply`);
- the sheet's values, `None` when reading raised;
- the reply to the `i`-th post (`nat -> PostOutcome`).

The normalisation follows the code. The script removes every `https://`,
then every `http://`. If what is left ends with `.caspio.com`, it removes
every occurrence of `.caspio.com`, not only the trailing one. So
`x.caspio.comy.caspio.com` becomes `xy`, which `NormalizeRemovesInnerSuffix`
states. This is more than removing a trailing suffix, and the model keeps
the code's behaviour rather than that simpler reading.

## Model

| member | source | states |
|---|---|---|
| SheetReader.Pad | src/sheet_caspio.py:93-94 | the padded row keeps the original cells as a prefix, appends only `''`, and has length max(row length, header width) |
| SheetReader.PadKeepsEligibility | src/sheet_caspio.py:93-96 | padding never changes whether the status cell is blank, because a cell past the end reads as `''` and padding only adds `''` |
| SheetReader.EligibleIffStripEmpty | src/sheet_caspio.py:95-96 | a row is eligible exactly when its index-19 cell, or `''` when the row is too short, strips to the empty string |
| SheetReader.ReadSheet | src/sheet_caspio.py:85-108 | a failed fetch or an empty sheet gives `([], [], -1)`; otherwise the header is the first row, the status column is 19, and there are at most as many records as data rows |
| SheetReader.ReadHeaderOnly | src/sheet_caspio.py:86-88 | a header-only sheet selects nothing but keeps its header and column 19; an empty sheet and a failed read both give `([], [], -1)` |
| SheetReader.ReadSheetRows | src/sheet_caspio.py:89-92 | on a non-empty sheet the records are the selection over every row after the header, padded to the header's width |
| SheetReader.SelectRows | src/sheet_caspio.py:92-104 | the filtering loop keeps at most one record per data row; what the records are is stated by the lemmas below |
| SheetReader.SelectRowsLength | src/sheet_caspio.py:92-104 | the selection has one record per data row whose padded row is eligible, as counted by the reference filter |
| SheetReader.SelectRowsAt | src/sheet_caspio.py:92-104 | the `k`-th record is the record of the `k`-th eligible data row of the reference filter |
| SheetReader.SelectRowsFollowsPositions | src/sheet_caspio.py:92-104 | the selection is exactly the reference order-preserving filter of the eligible data rows |
| SheetReader.EligibleIsSelected | src/sheet_caspio.py:92-104 | every eligible data row's record appears in the selection, at the returned place |
| SheetReader.SelectedRow | src/sheet_caspio.py:92-104 | each record's number lies within the data rows; it carries column 19 and its data row padded, and that row's status cell is blank |
| SheetReader.SelectRowsOrdered | src/sheet_caspio.py:92-104 | the record row numbers strictly increase |
| SheetReader.ReadSheetRow | src/sheet_caspio.py:92-104 | each record's number `n` satisfies 2 <= n <= sheet length; its cells are sheet row `n` padded to the header's width; it carries column 19; and sheet row `n`'s status cell is blank |
| SheetReader.ReadSheetSelects | src/sheet_caspio.py:86-105 | every record of the reader satisfies ReadSheetRow, and the row numbers strictly increase |
| SheetReader.ReadSheetMissesNothing | src/sheet_caspio.py:92-104 | every data row whose status cell is blank is selected, under its own sheet row number |
| SheetReader.SelectedIsEligible | src/sheet_caspio.py:95-104 | a row number in the selection belongs to a data row whose own status cell is blank |
| SheetReader.EligibleNumberSelected | src/sheet_caspio.py:95-104 | a data row whose own status cell is blank has its row number in the selection |
| SheetReader.SelectRowsExactly | src/sheet_caspio.py:92-104 | data row `i` is numbered `i + 2` in the selection if and only if its status cell is blank |
| SheetReader.ReadSheetSelectsExactly | src/sheet_caspio.py:92-104 | sheet row `n >= 2` is among the selected row numbers if and only if its status cell is blank |
| FieldMap.BuildRecord | src/sheet_caspio.py:128-132 | the record's keys are exactly the field names whose column index is less than the row's length |
| FieldMap.MappedNamesSnoc | src/sheet_caspio.py:129-132 | adding one table entry adds its name to the key set exactly when its column is in range |
| FieldMap.BuildRecordStep | src/sheet_caspio.py:129-132 | a later entry changes no other field, and changes none at all when its column is out of range |
| FieldMap.BuildRecordLast | src/sheet_caspio.py:130-132 | an in-range entry sets its field to its cell stripped of surrounding whitespace |
| FieldMap.BuildRecordLastWins | src/sheet_caspio.py:129-132 | a field's value is the stripped cell of the last in-range entry naming it, since dictionary assignment overwrites |
| FieldMap.BuildRecordDistinct | src/sheet_caspio.py:129-132 | with distinct field names every in-range entry's field holds its own stripped cell |
| FieldMap.FieldMappingsRecord | src/sheet_caspio.py:230-250 | for the script's table, field `j` is present if and only if the row has column `j`, and then holds that cell stripped |
| Text.Strip | src/sheet_caspio.py:96 | stripping gives the empty string exactly for whitespace-only input, and otherwise leaves no whitespace at either end |
| Text.StripInterior | src/sheet_caspio.py:96 | the stripped string is the slice of the input that starts right after its leading whitespace, and only whitespace precedes and follows that slice |
| Text.StripKeepsCharacters | src/sheet_caspio.py:132 | stripping introduces no character that was not in the input |
| Text.Lower | src/sheet_caspio.py:63 | lowering keeps the length and leaves no upper-case ASCII letter; each upper-case letter moves to the lower-case letter at the same distance from `a` as it was from `A`, and every other character stays in place |
| Text.LowerMatchesAlphabet | src/sheet_caspio.py:63 | read against the alphabet `abcdefghijklmnopqrstuvwxyz`, lowering turns each upper-case letter into the letter at the same place, so `T` becomes `t` |
| Text.RemoveAll | src/sheet_caspio.py:37 | `replace(p, '')` never lengthens a string, and leaves it as it is when `p` is empty or longer than the string |
| Text.RemoveAllLength | src/sheet_caspio.py:37 | `replace(p, '')` removes whole occurrences only: the length lost is the number of occurrences removed times the length of `p` |
| Text.RemoveAllNone | src/sheet_caspio.py:37 | a string in which the pattern occurs nowhere is left unchanged by `replace(p, '')` |
| Text.RemoveAllFirst | src/sheet_caspio.py:37 | in `x + p + t`, with no occurrence of `p` starting inside `x`, `replace(p, '')` keeps `x`, deletes that occurrence and goes on with `t`; with RemoveAllNone this fixes the result for every non-empty `p` |
| Text.RemoveAllKeepsPrefix | src/sheet_caspio.py:37 | a prefix that lacks the pattern's first character passes through `replace(p, '')` unchanged |
| Text.RemoveAllAbsent | src/sheet_caspio.py:37 | `replace(p, '')` leaves a string alone when the string lacks some character of `p` |
| Text.RemoveAllLeading | src/sheet_caspio.py:37 | a leading occurrence of the pattern is removed by `replace(p, '')` |
| Endpoints.StripSchemes | src/sheet_caspio.py:37 | removing the schemes never lengthens the id, and an id without a colon, which holds neither scheme, is kept |
| Endpoints.DropHostSuffix | src/sheet_caspio.py:38-39 | the id is kept unless it ends with `.caspio.com`; otherwise whole occurrences of the suffix are removed, and an id without a dot is always kept |
| Endpoints.NormalizeAccountId | src/sheet_caspio.py:37-39 | normalising never lengthens the id, and an id with neither a dot nor a colon is its own normal form |
| Endpoints.Host | src/sheet_caspio.py:40 | the host is `https://`, then the normalised id, then `.caspio.com`, and the id can be read back from between them |
| Endpoints.TokenUrl | src/sheet_caspio.py:40 | the token URL is the host followed by `/oauth/token` |
| Endpoints.RecordsUrl | src/sheet_caspio.py:117 | the records URL is the host, `/rest/v2/tables/`, the table name, then `/records`, and the table name can be read back from between the two paths |
| Endpoints.SchemesHttps | src/sheet_caspio.py:37 | `https://` followed by a colon-free id loses its scheme and nothing else |
| Endpoints.SchemesHttp | src/sheet_caspio.py:37 | `http://` followed by a colon-free id loses its scheme and nothing else |
| Endpoints.SuffixRemoved | src/sheet_caspio.py:38-39 | a dot-free id followed by `.caspio.com` loses the suffix |
| Endpoints.NoSuffixWithoutDot | src/sheet_caspio.py:38 | an id without a dot does not end with `.caspio.com` and is kept |
| Endpoints.NormalizePlainId | src/sheet_caspio.py:37-40 | a plain account id normalises to itself whether written bare, with either scheme, with the host suffix, or with both |
| Endpoints.EndpointsOfPlainId | src/sheet_caspio.py:114-117 | for a plain account id written in any of the six accepted spellings (bare, with the suffix, with either scheme, or with a scheme and the suffix), the token URL is `https://<id>.caspio.com/oauth/token` and the records URL is `https://<id>.caspio.com/rest/v2/tables/<table>/records` |
| Endpoints.NormalizeRemovesInnerSuffix | src/sheet_caspio.py:38-39 | once the id ends with `.caspio.com`, every earlier occurrence is removed as well: `x.caspio.comy.caspio.com` gives `xy` |
| Endpoints.NormalizeKeepsInnerSuffix | src/sheet_caspio.py:38-39 | an id that does not end with the suffix keeps its inner `.caspio.com` |
| Sink.AcquireToken | src/sheet_caspio.py:47-59 | a token is obtained only from a status-200 reply and is that reply's access token; any other status, a raised request or a body without a token gives none |
| Sink.HasToken | src/sheet_caspio.py:111 | a missing token or the empty string stops the sender; any other string lets it post |
| Sink.Accepted | src/sheet_caspio.py:134-135 | a post succeeds on status 200 or 201 with no body or a JSON body; a raised post, any other status, or a body that is not JSON fails |
| Sink.PostsFor | src/sheet_caspio.py:133 | one request per row, in row order, each to the records URL of the configured table, with the bearer token and the row's mapped record |
| Sink.Accepts | src/sheet_caspio.py:126-149 | never more transfers than rows; when every reply is accepted, the transfers are those of all rows in order; when none is, there are none |
| Sink.SendToSink | src/sheet_caspio.py:110-133 | without a (non-empty) token nothing is posted and nothing succeeds; with one, every row is posted in order to the records endpoint, with the bearer token and the row's mapped record |
| Sink.AcceptsLength | src/sheet_caspio.py:126-149 | there is one successful transfer per row whose reply was accepted (status 200 or 201, body absent or JSON) |
| Sink.AcceptsAt | src/sheet_caspio.py:126-149 | the `k`-th transfer is that of the row at the `k`-th accepted reply, with its row number, record and status column |
| Sink.SendTransferred | src/sheet_caspio.py:134-141 | every transfer comes from a row whose reply was accepted and carries that row's number, record and status column |
| Sink.SendMissesNothing | src/sheet_caspio.py:126-149 | with a token, every row whose reply was accepted is among the transfers; a failing or raising row skips only itself |
| Sink.SendKeepsOrder | src/sheet_caspio.py:126-149 | transfers keep the rows' order: increasing row numbers stay increasing |
| StatusWriter.WritePlan | src/sheet_caspio.py:171-179 | no more writes than transfers; every write targets column 20 with the literal "Copied" |
| StatusWriter.WritePlanLength | src/sheet_caspio.py:171-179 | there is one write per transfer whose status column is 19 |
| StatusWriter.WritePlanAt | src/sheet_caspio.py:171-179 | the `k`-th write is that of the `k`-th transfer passing the column-19 guard, in order |
| StatusWriter.WritePlanAllPass | src/sheet_caspio.py:171-179 | when every transfer has status column 19, the plan is exactly `(row, 20, "Copied")` per transfer, in order |
| StatusWriter.WritePlanSkipsOtherColumns | src/sheet_caspio.py:174-176 | a transfer whose status column is not 19 adds no write |
| StatusWriter.SetCell | src/sheet_caspio.py:179 | a cell write changes only its row; that row becomes as long as the longer of itself and the written column, holds the value at that column, and keeps every other cell, with `''` in the cells padding added |
| StatusWriter.SetCellEligibility | src/sheet_caspio.py:179 | writing "Copied" into column 20 of a row makes it ineligible and leaves every other row's eligibility as it was |
| StatusWriter.ApplyWrites | src/sheet_caspio.py:171-183 | the writes keep the number of rows, and a row that no write targets is unchanged |
| StatusWriter.ApplyWritesEligibility | src/sheet_caspio.py:171-183 | after the writes, a row is eligible exactly when it was before and no write targeted it |
| StatusWriter.ApplyWritesKeepsHeader | src/sheet_caspio.py:171-183 | writes to data rows leave the header row unchanged |
| TransferRun.Run | src/sheet_caspio.py:188-219 | false when either authentication fails, with nothing read or posted; the token request goes to the configured account exactly when Google authentication succeeded; true when no row is eligible; otherwise processed = eligible rows, succeeded = transfers, failed = processed − succeeded >= 0, and the result is true if and only if some row succeeded; no transfers means no writes |
| TransferRun.RunParts | src/sheet_caspio.py:197-205 | a run that proceeds posts and transfers what the sender does on the rows read, and writes the plan for those transfers |
| TransferRun.RunTransferred | src/sheet_caspio.py:197-202 | every transfer of a run is that of an eligible row read from the sheet whose post was accepted, and it carries column 19 |
| TransferRun.RunWritesPerTransfer | src/sheet_caspio.py:203-205 | a run writes `(row, 20, "Copied")` once per successful transfer, in order, and nothing when none succeeded |
| TransferRun.RunWritesOnlyAccepted | src/sheet_caspio.py:171-179 | every write of a run marks the sheet row of an eligible row whose post was accepted |
| TransferRun.RunWritesEveryAccepted | src/sheet_caspio.py:197-205 | with a usable token, every eligible row whose post was accepted gets its status cell written |
| TransferRun.RunOkIffSomeAccepted | src/sheet_caspio.py:202-219 | with a usable token, a run with eligible rows returns true if and only if some post was accepted |
| TransferRun.RunEmptyToken | src/sheet_caspio.py:111-113 | an empty access token passes authentication but posts nothing, so a run with eligible rows fails and writes nothing |
| TransferRun.RerunSkipsCopiedRows | src/sheet_caspio.py:171-179 | after a run's writes are applied to the sheet it read, a row is selected again exactly when it was selected before and was not marked |
| HeaderLookup.NormalizeHeaderHasNoUpper | src/sheet_caspio.py:63 | a lowered and stripped header holds no upper-case ASCII letter |
| HeaderLookup.NormalizedHeaderNeverMatches | src/sheet_caspio.py:63 | no header, once normalised, equals `TT Updata` or `TT_updata` |
| HeaderLookup.FindStatusColumnByName | src/sheet_caspio.py:61-65 | the lookup as written returns the index of the first header that normalises to `TT Updata` or `TT_updata`, or -1 exactly when none does |
| HeaderLookup.FindStatusColumnLowered | src/sheet_caspio.py:61-65 | the corrected lookup returns the index of the first header that normalises to `tt updata` or `tt_updata`, or -1 exactly when none does |
| HeaderLookup.FindStatusColumnNeverMatches | src/sheet_caspio.py:61-65 | as written, the lookup returns -1 for every header list, including `["TT Updata"]` |
| HeaderLookup.FindStatusColumnLoweredFinds | src/sheet_caspio.py:61-65 | with the names lowered, the lookup returns `n` when header `n` is spelled `TT Updata` and no earlier header normalises to a status name |

## Left out

- Google authentication (`oauth2client`, `gspread`), opening the sheet by URL or key, and the worksheet fallback. These are library calls whose behaviour is not visible. The model takes whether authentication succeeded and the fetched values (or `None` when fetching raised) as inputs.
- HTTP requests and JSON decoding. The token exchange's reply and each post's reply are inputs. A post body that does not decode as JSON is a `NotJson` reply: decoding raises, so the row is skipped.
- The decoded reply of an accepted post (`caspio_response`). A `Transfer` keeps the row number, the record and the status column, but not the decoded reply. Nothing later in the script reads that value.
- SheetReader.SelectRows: its own contract states only the bound on the number of records. What the records are (their numbers, cells and status column, that they are exactly the eligible rows, in order) is stated about it by SelectRowsFollowsPositions, SelectedRow, SelectRowsExactly and SelectRowsOrdered. A quantified postcondition on this recursive function makes every proof that mentions it too expensive.
- `time.sleep`, `print` and the broad `try/except` handlers. A raised exception becomes an outcome of the step that raised: `TokenRaised`, `Raised`, or a `None` fetch.
- The configuration read from the environment in `main`. The script's mapping table is the constant `FieldMappings`; the account settings are the `CaspioConfig` parameter.
- The aliasing of `data` and `original_row` to one list. Rows are immutable values, and a record holds one `cells` field.
- Text.Lower: models `str.lower()` on the ASCII letters only. Other characters pass through unchanged, which is all the header lookup needs.
- FieldMap.BuildRecord: table keys are natural numbers. A negative key, which Python would index from the end of the row, is not modelled.
- Sink.AcquireToken: an access token that is not a string, such as JSON `null` or a number, is not modelled. An empty string is, and `RunEmptyToken` states what it does.
- StatusWriter.SetCell: a write outside the rows the sheet holds leaves the values unchanged. The sheet service would instead grow the sheet. A run writes only to rows it read, so this case does not arise there.
- Failures while writing back: opening the sheet again, finding no worksheet, or an `update_cell` that raises. The model's writes are the calls issued, not their effect on the service.
- The final summary's claim that the sheet update was "attempted for" every successful row. It is a printed message, not a value.

## Findings

| source | as written | input that shows it | evidently intended | confidence | as-written member | corrected member |
|---|---|---|---|---|---|---|
| src/sheet_caspio.py:63 | the header is lowered and stripped, then compared with `'TT Updata'` and `'TT_updata'`, which hold upper-case letters, so no header can match and the lookup always returns -1 | headers `["TT Updata"]`: the lookup returns -1 | compare against the lowered names `tt updata` and `tt_updata`, so that the status column is found by its header | not executed; the function is never called, since the reader fixes the column at 19 | HeaderLookup.FindStatusColumnNeverMatches | HeaderLookup.FindStatusColumnLoweredFinds |
