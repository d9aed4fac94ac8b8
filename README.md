# MaximallyOutreach mail-merge core, in Dafny

MaximallyOutreach is a small Flask dashboard for school outreach. It keeps a
recipient list uploaded from CSV, a table of email templates, a log of sent
emails and sender settings, all as JSON files. It sends merged emails through
the Resend gateway. This project models the mail-merge core of `app.py` and
proves what it does:

- `text.dfy` (module `Text`): Python's `str.strip()` and `str.replace(old, new)`.
  `ReplaceAll` is the left-to-right scan that `str.replace` performs. A separate
  reference definition, `Split`/`Join` (`str.split` and `str.join`), is proved
  equal to it: `s.replace(old, new) == new.join(s.split(old))`.
- `placeholders.dfy` (module `Placeholders`): `replace_placeholders`. The four
  tokens are replaced one after another, in the order `{{school_name}}`,
  `{{contact_person}}`, `{{city}}`, `{{email}}`, by the record's `School Name`,
  `Contact Person`, `City` and `Email` fields. A missing field counts as `''`.
- `upload.dfy` (module `Upload`): the row-cleaning loop of `upload_csv`, a
  dict comprehension that strips keys and values and drops blank values,
  followed by the `School Name`/`Email` filter.
- `templates.dfy` (module `Templates`): the template table: lookup of the
  first template with an id, `create_template`'s `max(ids, default=0) + 1`,
  and `save_template`'s in-place overwrite.
- `dispatch.dfy` (module `Dispatch`): the dispatch loops of `send_emails` and
  `send_custom_email`, with the template choice, the custom-vs-template
  choice, the from-address and the gateway parameters.
- `dashboard.dfy` (module `Dashboard`): the four JSON files as the fields of a
  `Store` class. Each handler that loads a file, changes it and saves it back
  is a method that assigns the matching field. This file also holds
  `clear_data` and the `export_logs` projection.
- `wrappers.dfy`: `Option` and `Result`.

The gateway, the clock and the A/B random pick are parameters: an
`Environment` holds three functions of the call number `k` within the batch.
`gateway(k, params)` either accepts and returns a message id, or raises with a
message. `clock(k)` is the timestamp. In A/B mode call `k` uses
`templates[pick(k) % len(templates)]`, so every choice of template is possible.

Python's list indexing is modelled exactly:

- an index `i >= len(schools)` is skipped;
- an index with `-len(schools) <= i < 0` reads `schools[len(schools) + i]`;
- an index below `-len(schools)` raises `IndexError`. That aborts the whole
  request before `save_json_file`. The emails already sent in that batch are
  therefore never logged (`Batch.Aborted.unlogged`,
  `SendBeforeIndexErrorIsUnlogged`).

`replace_placeholders` is neither order-independent, non-recursive nor
idempotent, and the model follows the code. Two separate effects of the
sequential loop show this:

- A token for a later placeholder inside an inserted value is replaced. A
  School Name of `{{city}}` ends up as the City (`MergeRescansLaterTokens`).
- A token for an earlier placeholder inside a later value is not replaced,
  because that replacement has already run. Merging the result a second time
  then changes it. An Email value of `{{school_name}}` gives an example
  (`MergeNotIdempotent`).

For templates made of brace-free text and the four tokens, the model proves
that the sequential replacement equals the intended simultaneous one, as long
as the first three values are brace-free (`MergeWellFormed`). With all four
values brace-free, it also proves that the result holds no token and that
merging again changes nothing (`MergeCompleteAndIdempotent`). Without those
conditions, a token can remain even though no value contains one. The text
`{{school_name}` followed by `{{school_name}}`, with School Name `}`, merges to
`{{school_name}}` (`MergeCanLeaveToken`).

## Model

| member | source | states |
|---|---|---|
| Text.Strip | app.py:163 | definition of `str.strip()`; its meaning is proved in `Text.StripSpec`, `Text.StripEmptyIff` and `Text.StripIdempotent` |
| Text.ReplaceAll | app.py:119 | definition of `str.replace` as a left-to-right scan; its meaning is proved in `Text.ReplaceViaSplit` |
| Text.StripSpec | app.py:163 | `strip()` returns a slice of its argument with only whitespace (Python's `isspace` set) removed on either side, and the result neither starts nor ends with whitespace |
| Text.StripEmptyIff | app.py:163 | a value strips to `''` exactly when it is all whitespace: the blank test of the upload filter and of the form checks |
| Text.StripIdempotent | app.py:163 | stripping a stripped value changes nothing |
| Text.SplitJoin | app.py:119 | splitting at every occurrence of the pattern and joining with the pattern gives the text back |
| Text.SplitPiecesFree | app.py:119 | no piece of the split contains the pattern |
| Text.ReplaceViaSplit | app.py:119 | `s.replace(old, new)` (the left-to-right scan) equals `new.join(s.split(old))` |
| Text.NoOccurrenceUnchanged | app.py:119 | `replace` leaves a text without the pattern unchanged |
| Text.ReplaceBySelf | app.py:119 | replacing a pattern by itself changes nothing |
| Placeholders.Merge | app.py:108-121 | definition of `replace_placeholders` as the fold of the four replacements; its meaning is proved in `Placeholders.MergeUnfold`, `Placeholders.MergeWellFormed` and `Placeholders.MergeCompleteAndIdempotent` |
| Placeholders.SubstituteEveryOccurrence | app.py:118-119 | one replacement replaces every occurrence: the text is its token-free pieces joined by the token, and the result is the same pieces joined by the field value |
| Placeholders.MergeUnfold | app.py:110-119 | the merge is the four replacements applied in the order school_name, contact_person, city, email |
| Placeholders.ReplacePlaceholders | app.py:108-121 | the loop that reassigns `result` computes the merge (the left fold of the four replacements) |
| Placeholders.MissingFieldIsEmpty | app.py:111-114 | a missing column merges exactly as a present empty one |
| Placeholders.MergeEmpty | app.py:284 | the empty text merges to the empty text, so `replace_placeholders(h) if h else ''` is the merge of `h` |
| Placeholders.MergeWithoutTokens | app.py:117-121 | a text containing none of the four tokens is returned unchanged |
| Placeholders.ReplaceSlots | app.py:119 | in a template made of brace-free text and tokens, replacing one token replaces exactly its own slots and nothing else |
| Placeholders.MergeWellFormed | app.py:117-121 | for such a template, when the first three values are brace-free, the sequential merge equals the simultaneous substitution of every token by its value |
| Placeholders.MergeCompleteAndIdempotent | app.py:117-121 | for such a template and brace-free values, no token is left in the result, and merging the result again changes nothing |
| Placeholders.MergeRescansLaterTokens | app.py:117-121 | a School Name of `{{city}}` is itself replaced by the City: inserted values are rescanned for later tokens |
| Placeholders.MergeNotIdempotent | app.py:117-121 | an Email value of `{{school_name}}` makes a second merge differ from the first |
| Placeholders.MergeCanLeaveToken | app.py:117-121 | with no value containing any token, the result can still contain a token, assembled from the text and a `}` value |
| Upload.AsText | app.py:161-163 | a row can be stripped exactly when every cell is text, and then it keeps its keys and cell texts in order |
| Upload.AsTextRows | app.py:161-163 | all rows can be stripped exactly when each one can, and then each row keeps its position |
| Upload.CleanRow | app.py:163 | definition of the dict comprehension on one row; its meaning is proved in `Upload.CleanRowStripped`, `Upload.CleanRowComplete`, `Upload.CleanRowLast` and `Upload.FieldIff` |
| Upload.Keep | app.py:164 | definition of the `School Name` and `Email` filter; its meaning is proved in `Upload.KeepIff` |
| Upload.CleanRowStripped | app.py:163 | every key and value of a cleaned record is stripped, and no value is blank |
| Upload.CleanRowComplete | app.py:163 | every key with a non-blank cell appears in the cleaned record |
| Upload.CleanRowLast | app.py:163 | a key holds the last non-blank cell under it, as later duplicates overwrite earlier ones in a dict |
| Upload.FieldIff | app.py:163-164 | a column of the cleaned record is non-blank exactly when the row has a non-blank cell under that stripped key |
| Upload.KeepIff | app.py:163-164 | a row is kept exactly when it has a non-blank `School Name` cell and a non-blank `Email` cell |
| Upload.CleanedAppend | app.py:160-165 | cleaning distributes over concatenation, so kept records keep their input order |
| Upload.CleanedSound | app.py:160-165 | every kept record passes the filter and is the cleaned form of some row |
| Upload.CleanedComplete | app.py:160-165 | every row whose cleaned form passes the filter is kept |
| Upload.UploadResult | app.py:160-169 | definition of the upload outcome; its meaning is proved in `Upload.UploadResultSpec` |
| Upload.UploadResultSpec | app.py:157-177 | an upload is refused as unreadable exactly when some cell is not text, and refused for having no valid record exactly when it is readable and no row passes the filter, so a readable upload with a passing row is accepted; an accepted upload is non-empty, holds only filtered records each cleaned from a row, and holds every row that passes |
| Upload.CleanUpload | app.py:160-169 | the loop appending kept records computes the upload outcome, refusing an upload with no valid record |
| Templates.FirstIndex | app.py:439-447 | the position of the first template with the id, and none exactly when no template has it |
| Templates.FindTemplate | app.py:267-271 | the lookup yields a stored template with the requested id, and nothing exactly when no template has the id |
| Templates.LookupTemplate | app.py:266-274 | the `for ... break` lookup loop returns the first template with the id |
| Templates.MaxId | app.py:476 | `max(ids, default=0)`: 0 for no template, otherwise an id that bounds every id |
| Templates.NextId | app.py:476 | the new id is above every existing id, and 1 for an empty table |
| Templates.RequiredFields | app.py:465-471 | definition of the form check on the stripped fields; its meaning is proved in `Templates.RequiredFieldsAccepted` |
| Templates.RequiredFieldsAccepted | app.py:465-471 | the form is accepted exactly when name, subject and content each have a character that is not whitespace; the accepted fields are non-empty and already stripped |
| Templates.Appended | app.py:476-486 | definition of the table after `create_template`; its meaning is proved in `Templates.AppendedKeepsIds` |
| Templates.AppendedKeepsIds | app.py:476-486 | appending the new template keeps ids unique and leaves the existing templates as they were |
| Templates.ReplaceFirst | app.py:439-447 | definition of the table after `save_template`; its meaning is proved in `Templates.ReplaceFirstSpec` |
| Templates.ReplaceFirstSpec | app.py:439-447 | saving overwrites only the first template with the id; the length and every other template stay, and nothing changes when no template has the id |
| Templates.ReplaceFirstKeepsUnique | app.py:439-447 | saving a template keeps ids unique |
| Dispatch.FromAddress | app.py:288-291 | the from address is the bare sender email exactly when the sender name is empty |
| Dispatch.FromAddressParts | app.py:291 | with a sender name, the address is the name, then ` <`, the email and `>` |
| Dispatch.BuildParams | app.py:293-304 | one recipient; html present exactly when non-empty; text present unless there is html and the text is empty; at least one body |
| Dispatch.ChosenTemplate | app.py:262-274 | the template used is a stored one; outside A/B mode it is the first with the requested id |
| Dispatch.DraftFor | app.py:262-279 | definition of the subject, text and html chosen for one send; its meaning is proved in `Dispatch.SentMessage` |
| Dispatch.ParamsFor | app.py:282-304 | definition of the merged gateway parameters; its meaning is proved in `Dispatch.SentMessage` |
| Dispatch.SentMessage | app.py:277-304 | what is sent: to the school's Email alone, from the sender address, with the merged custom subject/content when non-empty and the template's otherwise, and the merged html exactly when it is non-empty |
| Dispatch.Deliver | app.py:306-334 | definition of one send and its log entry; its meaning is proved in `Dispatch.DeliverSpec` |
| Dispatch.DeliverSpec | app.py:306-334 | a log entry with the school's School Name and Email, the merged subject and the call's timestamp; status `Sent` exactly when the gateway returned, with its id, and `Error: <message>` with no id otherwise; the result agrees with the status |
| Dispatch.SchoolAt | app.py:259 | definition of Python's `schools[i]` for a valid index, counting from the end when `i` is negative; used by `Dispatch.BatchLogsEverySend` |
| Dispatch.Kept | app.py:255-257 | the indices that pass the skip test are all below `len(schools)` |
| Dispatch.KeptMembers | app.py:255-257 | an index is sent to exactly when it is selected and below `len(schools)` |
| Dispatch.SkippedIndicesIgnored | app.py:255-257 | dropping the skipped indices from the selection gives the same batch |
| Dispatch.ResolveDraft | app.py:262-279 | a draft is found exactly when a template is available, and it is the template-or-custom choice |
| Dispatch.Send | app.py:282-334 | the loop body's merge, parameters, gateway call and log entry give the delivery specified by `Deliver` |
| Dispatch.SendTo | app.py:259-334 | one iteration for a valid index sends exactly when a template is available, and its delivery is the batch step for that index and call number |
| Dispatch.BatchSpec | app.py:255-336 | definition of the whole batch; its meaning is proved in `Dispatch.BatchAborts`, `Dispatch.BatchLogsEverySend` and `Dispatch.BatchTemplatesUsed` |
| Dispatch.RunBatch | app.py:255-336 | the dispatch loop yields the specified batch: one delivery per in-range index in order, or the abort the loop raises |
| Dispatch.BatchAborts | app.py:259-274 | the batch aborts exactly when an in-range index lies below `-len(schools)`, or when there is an in-range index and no template; a missing template aborts before any send; an index error aborts after sending to the indices before it |
| Dispatch.BatchLogsEverySend | app.py:255-336 | a completed batch has one entry and one result per in-range index, in order; the p-th is the send of call p to the p-th in-range index: that school's School Name and Email, the merged subject, the stamp of call p, status `Sent` with the message id exactly when the gateway accepted call p and `Error: <message>` with no id otherwise, and a result that agrees with the status |
| Dispatch.BatchTemplatesUsed | app.py:262-274 | every log entry records a stored template (the requested one outside A/B mode), or `Custom Email` with id 0 for a custom email |
| Dispatch.AllAcceptedAllSent | app.py:255-336 | with valid indices, a template and a gateway that accepts everything, every selected school is sent its email and every result is a success |
| Dispatch.SendBeforeIndexErrorIsUnlogged | app.py:255-348 | with one school and the selection `[0, -2]`, the first email is sent and then the batch aborts, so its log entry is never saved |
| Dashboard.LogsGrowBySends | app.py:336-339 | a completed batch extends the log by exactly one entry per in-range index and keeps the old log as a prefix; an aborted one leaves the log unchanged |
| Dashboard.BatchLogsNameRecipients | app.py:293-313 | when every stored recipient has a School Name and an Email, every entry of a completed batch has a non-blank school name and address, so the `school['Email']` lookups never miss |
| Dashboard.ExportRow | app.py:366-374 | definition of one exported row; its meaning is proved in `Dashboard.ExportRowFields` |
| Dashboard.ExportTable | app.py:356-374 | definition of the export; its meaning is proved in `Dashboard.ExportTableSpec` |
| Dashboard.ExportRowFields | app.py:366-374 | an exported row has the six header columns, and two entries export alike exactly when they agree on those six fields |
| Dashboard.ExportTableSpec | app.py:356-374 | an empty log is refused; otherwise the table is the header and then one row per entry in log order |
| Dashboard.Store.constructor | app.py:104-106 | a fresh store has no recipients and no logs, and holds the seeded templates |
| Dashboard.Store.Upload | app.py:160-173 | an accepted upload replaces the recipient list and reports its size; a refused one leaves every field as it was |
| Dashboard.Store.SendEmails | app.py:250-339 | an empty selection is refused with the log unchanged; otherwise the response and the new log are those of the batch, and every appended entry names a school and an address |
| Dashboard.Store.SendCustomEmail | app.py:549-628 | the stripped subject is required, and so is content or html; then the selection; then the batch runs as in `send_emails`, with template `Custom Email`, and every appended entry names a school and an address |
| Dashboard.Store.Record | app.py:336-339 | a completed batch appends its entries and returns its results; an aborted batch saves no log |
| Dashboard.Store.CreateTemplate | app.py:465-487 | with valid fields, exactly one template is appended, carrying the next id; otherwise nothing changes |
| Dashboard.Store.SaveTemplate | app.py:432-449 | with valid fields, the first template with the id is overwritten in place; otherwise nothing changes |
| Dashboard.Store.ClearData | app.py:398-399 | recipients and logs are emptied; templates and settings stay |
| Dashboard.Store.ExportLogs | app.py:356-374 | the row-by-row loop builds the export table |

## Left out

- Flask routing, `request`, `flash`, `redirect`, `render_template`, `send_file` and HTTP status codes. Outcomes are return values: `Result`, `SendResponse`, `Batch`.
- The `logging.error` calls on failure (app.py:176, 322, 347, 390, 402, 453, 493, 611, 636) write to the process log only. They are not modelled; only the persisted email log (`Store.logs`) is.
- JSON file I/O (`load_json_file`, `save_json_file`). The four files are the fields of `Store`, and "save" means assigning a field. The fall-back to a default when a file is missing is not modelled.
- CSV parsing (`csv.DictReader`, decoding, quoting) and CSV writing (`DictWriter`). A parsed row is a sequence of (header, cell) pairs. A cell that is not a string is `None`: the reader's fill for short rows, or its list for long rows. Header names are assumed distinct, as the reader makes them keys of one dict.
- The `.csv` file-name and missing-file checks of `upload_csv`. They are request plumbing that precedes the modelled loop.
- `resend.Emails.send`, `datetime.now()` and `random.choice` are oracles in `Environment`. Which message id, timestamp or template they produce is not modelled.
- `load_settings` is read once per batch from `Store.settings`. The source re-reads the file before every send; nothing in the batch changes the file.
- The preview, settings, test-email, individual-email and `edit_template` handlers, the default template texts (app.py:41-102) and `static/js/app.js`. None of them is part of the mail-merge core.
- Store methods require `Valid()`: every stored recipient has a non-blank `School Name` and `Email`, and template ids are distinct. `upload_csv` and the template handlers establish this, and every method preserves it. Under it the `school['Email']` lookups cannot fail (`BatchLogsNameRecipients`). The `KeyError` paths that a hand-edited JSON file would reach are not modelled.
- `template_id` is an optional integer. A JSON string id, or a non-integer selected index, makes Python's comparison fail differently; this is not modelled. In `send_emails`, a `None` `custom_subject`, `custom_content` or `custom_html_content` behaves as `''` does. In `send_custom_email` a JSON `null` subject, content or html makes `.strip()` raise and the request fail; this is not modelled, as the model takes these fields as strings.
- SaveTemplate: takes the id as an integer. The `int(...)` conversion of the form field, and the exception it raises on bad input, are not modelled.
- ExportRow: reads the six fields directly. Every log entry the model creates has all eight fields, so the `.get(..., '')` defaults of `export_logs` are never reached.
- MergeCompleteAndIdempotent: proves that no token is left only for templates made of brace-free text and tokens, with brace-free values. For arbitrary text the claim that no token is left is false (`MergeCanLeaveToken`).
- Retry, back-off, batch-size caps, email validation and removal of already-emailed recipients are not in `app.py`, so they are not modelled.
