# EndNote library generator: outcome classifier and progress escaping

This project models two pieces of deterministic logic in the EndNote library
generator, and proves properties of each.

1. `LibraryGenerator` (src/library_manager.py) takes the file-to-DOI map produced by
   the PDF scanner. For each file it builds one outcome record that starts as `Pending`.
   It then moves the record to `Success`, `Metadata Not Found` or `DOI Not Found`.
   The choice depends on whether the DOI is truthy and whether the metadata lookup
   returns a truthy dictionary. The records of the latest run become the generator's
   results. `save_library` hands those results to the XML writer, or does nothing when
   they are empty.
2. Two fragments of the GUI's worker thread (gui_app.py):
   - the quote escaping applied to a progress message before it is spliced into a
     JavaScript string literal;
   - the `count` and `success_count` of the completion summary.

Modules:

- `Wrappers`: `Option` (Python's `None` or a value) and `Result` (a value or a raised error).
- `Records`: the outcome record, its statuses, DOI and metadata truthiness, and the
  per-entry classification (`Classify`).
- `DataFrame`: the columns and rows of the results table, which is all that
  `DataFrame.empty` and `df['status']` look at.
- `Library`: the run over the whole map, the generator state, and `save_library`.
- `Escape`: the escaping as written, plus a reader for double-quoted JavaScript string
  literals covering the single-character escapes of section 12.9.4 of ECMA-262. It also
  has a corrected escaping that the reader always decodes back to the message.
- `Summary`: the completion counts.

Calls into code that is not part of this model become parameters:
- The PDF scanner's output is the `entries` sequence. It lists distinct paths in the
  dictionary's iteration order.
- The metadata fetcher is the function `fetch: string -> Option<Metadata>`.
- `save_library` returns the `WriterCall` it would make on the XML writer, or `None`.

Three behaviours of the code that are easy to miss:
- A record with an empty-string DOI gets `DOI Not Found`, but its `doi` field keeps `""`.
  It does not become absent.
- A `Success` record need not have a title. Any non-empty metadata dictionary is truthy,
  so a dictionary that holds only `year` still gives `Success`.
- The code has no per-file error status. An exception raised by the scanner or the
  fetcher is not caught inside the loop. So there is no fourth terminal status.

## Model

| member | source | states |
|---|---|---|
| Records.Update | src/library_manager.py:47 | `record.update(metadata)` overwrites exactly the fields whose key is in the dictionary, keeps all others, and never touches path, DOI or status |
| Records.Classify | src/library_manager.py:33-52 | the record keeps the entry's path and DOI and ends in a terminal, consistent status. `DOI Not Found` holds iff the DOI is falsy. `Success` holds iff the DOI is truthy and the lookup returns a truthy dictionary |
| Records.ClassifyCharacterised | src/library_manager.py:33-52 | `Classify` is exactly the record described by the outcome table: it meets the table, and the table admits no other record |
| Records.SuccessCopiesMetadata | src/library_manager.py:45-48 | on success every bibliographic field equals the dictionary's value for that key (`None` when the key is missing), and the status stays `Success` |
| Records.ClassifyIgnoresFetchWithoutDoi | src/library_manager.py:43-52 | with a falsy DOI the outcome does not depend on the fetcher: `DOI Not Found`, with every bibliographic field `None` |
| Records.ClassifyDependsOnlyOnOwnDoi | src/library_manager.py:43-46 | two fetchers that agree on the entry's truthy DOI give the same record |
| DataFrame.FromRecords | src/library_manager.py:56 | the table keeps the records in order. It has a status column, and is non-empty, exactly when there is at least one record |
| Library.ClassifyAll | src/library_manager.py:28-54 | one record per entry, in order. Record `i` carries entry `i`'s path and DOI and is consistent, so none is `Pending` |
| Library.BuildRecords | src/library_manager.py:28-54 | the appending loop builds exactly the records of `ClassifyAll` |
| Library.ClassifyAllPointwise | src/library_manager.py:32-54 | record `i` of a run is the classification of entry `i` |
| Library.RunKeepsPaths | src/library_manager.py:32-34 | the records' paths are the map's keys in iteration order (no drops, no duplicates), and distinct keys give distinct records |
| Library.LookupsAreTruthyDois | src/library_manager.py:43-45 | the fetcher is asked about a string iff that string is the non-empty DOI of some entry |
| Library.RunDependsOnlyOnLookups | src/library_manager.py:43-45 | two fetchers that agree on the looked-up DOIs give the same run |
| Library.ProcessDirectory | src/library_manager.py:19-57 | the returned table is the one stored as the results. It holds one terminal record per entry, with the entry's path, in order |
| Library.RunsDoNotAccumulate | src/library_manager.py:56-57 | the results after a second run are those of a run on a fresh generator; earlier records are not kept |
| Library.SaveLibrary | src/library_manager.py:59-72 | the writer is called iff the stored table is non-empty, and then with the stored records in order and the given path |
| Library.SaveAfterRun | src/library_manager.py:64-72 | saving after a run writes the run's records iff the map had entries; a fresh generator writes nothing |
| Escape.ReplaceAll | gui_app.py:53 | `str.replace` with a one-character pattern leaves text without that character unchanged, and adds no new occurrence when the replacement lacks it |
| Escape.EscapeQuotesPerChar | gui_app.py:53 | the two chained replacements act character by character: `"` becomes `\"`, `'` becomes `\'`, and everything else is kept |
| Escape.EscapeSingleChar | gui_app.py:53 | a lone `"` becomes `\"`, a lone `'` becomes `\'`, and any other character is unchanged |
| Escape.EscapeQuotesAppend | gui_app.py:53 | escaping a concatenation is the concatenation of the escapings |
| Escape.EscapeQuotesLength | gui_app.py:53 | the output is longer than the message by exactly the number of quotes |
| Escape.EscapeQuotesFixesQuoteFree | gui_app.py:53 | a message without quotes comes back unchanged |
| Escape.EscapeQuotesLeavesNoBareQuote | gui_app.py:53 | every quote in the output has a backslash immediately before it. That backslash can itself be escaped by one from the message, so this alone does not make the literal safe |
| Escape.UnescapeEscapeQuotes | gui_app.py:53 | dropping the backslash before each quote restores the message, so the escaping is injective |
| Escape.ReadLiteral | gui_app.py:55 | reading a spliced JavaScript literal yields its value and the text after its closing quote, which is a proper suffix of the input |
| Escape.EscapeQuotesReadsBack | gui_app.py:53-55 | for a message without backslash or line break, the spliced literal reads back as the message and ends at the splice's closing quote |
| Escape.EscapeQuotesTrailingBackslash | gui_app.py:53-55 | the message `C:\` escapes to itself, and the spliced literal `"C:\")` never terminates |
| Escape.EscapeQuotesEarlyClose | gui_app.py:53-55 | the message `\"` escapes to `\\"`, and the spliced literal closes at the message's own quote: it reads as `\`, with the splice's `")` left over as script text |
| Escape.EscapeForJsReadsBack | gui_app.py:53-55 | with backslash and line breaks also escaped, every message reads back as itself, ending at the splice's closing quote |
| Escape.EscapeForJsAgreesWithoutBackslash | gui_app.py:53 | the corrected escaping equals the original on every message without backslash or line break |
| Summary.SuccessRows | gui_app.py:65 | the filtered rows are rows of the table and all `Success`, and every `Success` row is among them. There are exactly as many as there are `Success` positions in the table, so the filter keeps every row iff all rows are `Success` |
| Summary.SuccessRowsAppend | gui_app.py:65 | the mask keeps order and repeats: filtering a concatenation gives the concatenation of the filtered parts |
| Summary.SuccessRowsSingle | gui_app.py:65 | a single row survives the filter iff its status is `Success` |
| Summary.CountOutcomes | gui_app.py:64-65 | `count` is the number of records and `success_count` is the number of positions whose status is `Success`, so `success_count <= count`. They are equal iff every record is `Success`; `success_count` is zero iff none is. The counts are defined for the empty table too |
| Summary.SummaryAsWritten | gui_app.py:64-65 | the summary raises `KeyError` exactly when the table has no status column. Otherwise it gives `CountOutcomes` of the rows: `count` is the number of rows and `success_count` the number of `Success` rows |
| Summary.SummaryFailsOnEmptyTable | gui_app.py:64-65 | on the table built from no records the summary as written raises `KeyError('status')`, while the counts are `(0, 0)` |
| Summary.SummaryAgreesOnNonEmptyTable | gui_app.py:64-65 | on a table built from at least one record, the summary as written gives exactly `CountOutcomes` |
| Summary.RunCounts | gui_app.py:64-65 | after a run, `count` is the number of scanned files and `success_count` is the number of files with a truthy DOI whose lookup returned a truthy dictionary |

## Left out

- PDF DOI extraction, the remote metadata lookup and XML serialisation have bodies
  outside this model. They become the `entries` sequence, the `fetch` function
  parameter and the returned `WriterCall`.
- The fetcher is a function, so it gives the same answer for the same DOI within a run.
  In the source, `fetch_metadata` is called once per entry (src/library_manager.py:45).
  Two PDFs with the same DOI could therefore end differently, for instance when a
  timeout or rate limit hits the second call. The model cannot express that.
- Records.Update: a metadata dictionary is restricted to `title`, `authors`, `year` and
  `journal`. In the source, a dictionary that also carried `file_path` or `doi` would
  overwrite those fields. It could not overwrite `status`, which is assigned after the
  update.
- pandas mechanics are not modelled beyond the column set and the row order. This
  covers dtype coercion (an integer year next to a missing one becomes a float) and the
  NaN-to-None cleaning at src/library_manager.py:70. Records carry `Option` fields
  throughout, so the writer receives them as stored.
- Exceptions raised by the scanner or the fetcher are not modelled. The source does not
  catch them inside the loop; they abort the run.
- `get_summary_table` (src/library_manager.py:74-75) only returns the stored table. It
  is the `results` field of `Library.Generator`.
- The constructor's e-mail argument configures the fetcher and is absorbed into `fetch`.
- The percentage at gui_app.py:51 uses floating-point division and truncation, and it
  divides by zero when `total` is 0.
- The rest of gui_app.py is left out: the dialogs, threads, `evaluate_js` calls, the
  exception handler, the formatting of the summary sentence (integer-to-text and
  `os.path.basename`) and `main`.
- gui_app.py:58 calls a `process_directory` with a `progress_callback` from
  `src.endnote_generator.library_manager`. That module is not part of this model. The
  escaping and the counts here take their inputs as values.
- Console `print` output and verify_setup.py, a filesystem smoke-test script with no
  logic of its own.
- Escape.ReadLiteral decodes only the single-character escapes. Hexadecimal, Unicode,
  octal and line-continuation escapes give `UnsupportedEscape` rather than a value.
  `EscapeForJs` never produces them. `EscapeQuotes` produces them only by passing on a
  backslash already in the message (`\x41` in a message reaches JavaScript as `A`), and
  `EscapeQuotesReadsBack` is stated only for messages without a backslash.

## Findings

| source | as written | input that shows it | evidently intended | confidence | as-written member | corrected member |
|---|---|---|---|---|---|---|
| gui_app.py:53 | only `"` and `'` are escaped before the message is spliced between double quotes. A backslash in the message passes through unescaped | the message `C:\` (a folder path ending in a backslash) gives the script text `"C:\")`: the backslash escapes the closing quote and the literal never ends | the literal read by JavaScript equals the message | not executed; medium (depends on the messages the scanner emits) | Escape.EscapeQuotesTrailingBackslash | Escape.EscapeForJsReadsBack |
| gui_app.py:53 | only `"` and `'` are escaped, so a backslash that stands before a quote in the message is copied unescaped | the message `\"` gives the script text `"\\"")`: the message's backslash escapes the inserted one, its quote closes the literal, and anything after it in the message runs as script | the literal read by JavaScript equals the message | not executed; medium (depends on the messages the scanner emits) | Escape.EscapeQuotesEarlyClose | Escape.EscapeForJsReadsBack |
| gui_app.py:65 | `df['status']` is read on the results table without checking for the column | an empty file-to-DOI map: `pd.DataFrame([])` (src/library_manager.py:56) has no columns, so `KeyError('status')` is raised. The GUI then shows `Error: 'status'` instead of a summary | the summary reports 0 files and 0 successes | not executed; medium (the GUI imports a different `library_manager`, which is not part of this model) | Summary.SummaryFailsOnEmptyTable | Summary.CountOutcomes |
