# eZamowienia scraper — a Dafny model of its bookkeeping

The scraper is a batch job. It searches the Polish public procurement portal
(ezamowienia.gov.pl) for a fixed list of phrases and reports tenders it has
not reported before. It remembers the identifiers it has seen in a text file.
At the end of every run it writes a status record that says whether today's
log holds a warning or an error.

This project models the deterministic parts of one run:

- **Identifier store** (`id_store.dfy`). `load_existing_ids` reads the id
  file into a set of lines. `save_new_ids` appends one line per new identifier.
  The file is a value, `Option<string>`, where `None` means the file does not
  exist. Proved: loading gives exactly the lines of the text. Appending and
  then loading gives the old set plus the new identifiers. Text written by the
  store always ends with a line break.
- **Row filter and aggregation** (`scraper.dfy`). This is the phrase loop and
  the row loop of `main`. The browser is replaced by its output: one `Page` per
  configured phrase, either `Unavailable` (the lookup failed and the phrase is
  skipped) or the raw text of each row's cells. Proved: the case table for one
  row, including which index fails on short rows. The loops compute a report
  that alternates phrase markers with non-empty result blocks, in configured
  order. The run's new identifiers are exactly the stripped identifiers of the
  reportable rows, and none of them was known. Once they are stored, the same
  pages report nothing.
- **Health signal** (`health.dfy`). `check_log_for_warnings_or_errors` and the
  status selection. The log lines and today's date are parameters. Proved: the
  status is 0, with the failure message, exactly when some line starts with
  today's date and contains `WARNING` or `ERROR`. Leaving the loop early does
  not change the answer.
- **A run** (`pipeline.dfy`). The result file, the id file update and the
  mail attempt happen only when the report is non-empty. The status record is written
  in every case.
- `text.dfy` models the Python string operations used: `strip()`,
  `startswith`, substring `in` and `splitlines()`.

## Model

| member | source | states |
|---|---|---|
| `Text.StripSpec` | eZamowieniaScraper.py:113 | `strip()` returns the slice of the cell text between its leading and trailing whitespace (Python's `str.isspace` set), and that slice neither starts nor ends with whitespace |
| `Text.Contains` | eZamowieniaScraper.py:48 | `sub in s` holds exactly when `sub` occurs at some index of `s` |
| `Text.LinesAreLineAt` | eZamowieniaScraper.py:34 | `splitlines()` yields exactly the lines of the text: maximal break-free pieces that start at the beginning or after a `\n`, with no final empty piece |
| `Text.LinesAppend` | eZamowieniaScraper.py:38-40 | text appended to a file that ends with a line break splits independently of the old text |
| `Text.LinesOfUnlines` | eZamowieniaScraper.py:39-40 | splitting the `id + "\n"` lines written for break-free ids gives those ids back, in order |
| `IdStore.LoadIdsAreLines` | eZamowieniaScraper.py:31-35 | loading gives the empty set for a missing file, and otherwise exactly the set of lines of its text |
| `IdStore.LoadAfterAppend` | eZamowieniaScraper.py:31-40 | if the old text is empty or ends with `\n` and no id holds a line break, loading after the append gives the old set plus the appended ids |
| `IdStore.SaveNewIds` | eZamowieniaScraper.py:37-40 | appends every new id exactly once, in some iteration order, each followed by `\n`; the new text ends with `\n` when something was written; the append keeps the file append-safe; under the conditions above the load round-trip holds |
| `Health.CheckLog` | eZamowieniaScraper.py:42-55 | returns 0 exactly when some log line starts with today's date and contains `WARNING` or `ERROR`, and 1 otherwise |
| `Health.EarlyExitIrrelevant` | eZamowieniaScraper.py:47-50 | scanning every line without the `break` sets the flag exactly when such a line exists, so the early exit does not change the result |
| `Health.Truncate` | eZamowieniaScraper.py:165 | `int()` of the float timestamp truncates toward zero: the result is within one second of the timestamp, on the zero side |
| `Health.HealthStatus` | eZamowieniaScraper.py:161-171 | status 0 with "An error/warning occured while trying to run the script!" exactly when the log check finds a problem, otherwise status 1 with "No errors found while running the script."; `last_run` is the truncated timestamp |
| `Scraper.ProcessRow` | eZamowieniaScraper.py:111-129 | fewer than 2 cells fails at index 1; 2 cells with a new id fails at index 2; a known stripped id is skipped without error; 3 or more cells with a new id give the record of the stripped cells 0-2 with `Link` = fixed prefix + id |
| `Scraper.FreshRecordsMembers` | eZamowieniaScraper.py:110-126 | a record is in a phrase's results exactly when it is the record of one of its rows that has 3 cells and an unknown stripped id |
| `Scraper.FreshRecordsAreNew` | eZamowieniaScraper.py:115-126 | no reported record has a known id, and every link is the prefix followed by the record's id |
| `Scraper.FilterRows` | eZamowieniaScraper.py:110-129 | the row loop appends exactly the records of the reportable rows, in row order, and adds their ids to `new_ids` |
| `Scraper.Scrape` | eZamowieniaScraper.py:89-134 | the phrase loop builds the report phrase by phrase, and `new_ids` is exactly the set of ids of the records in it |
| `Scraper.ReportShape` | eZamowieniaScraper.py:131-133 | the report has even length, holds phrase markers at even positions and result blocks at odd ones, and every block is non-empty |
| `Scraper.ReportFollowsPhraseOrder` | eZamowieniaScraper.py:89-91 | the report's markers are the phrases whose page holds a reportable row, each once, in configured order |
| `Scraper.ReportEmptyIff` | eZamowieniaScraper.py:138-141 | the report is empty (no result file, no id update, no mail) exactly when no available page holds a reportable row |
| `Scraper.ReportedIdsExactly` | eZamowieniaScraper.py:114-126 | an id is new in this run exactly when it is the stripped id of a reportable row of some available page; no new id was known before |
| `Scraper.SecondRunReportsNothing` | eZamowieniaScraper.py:115-117 | with the run's new ids added to the known set, the same pages give an empty report |
| `Scraper.RepeatedRowsReportedTwice` | eZamowieniaScraper.py:115-126 | because `existing_ids` is not updated during a run, a new row listed under two phrases is reported under both, while `new_ids` holds its id once |
| `Scraper.KnownIdSkipped` | eZamowieniaScraper.py:114-126 | with `A1` known and rows for ` A1 ` and `B2`, only `B2` is reported, with its detail link |
| `Pipeline.Run` | eZamowieniaScraper.py:71-171 | an empty report leaves the id file unchanged and writes no result file and no mail; a non-empty one writes the report, attempts to mail it with the result file's name as the attachment (every attempt fails, see Left out), and appends its ids once each; appending keeps the id file loadable, so the old set plus the new ids load back and the same pages then report nothing; the status record follows the log check |

## Left out

- The browser. Driver setup, page loads, element lookup and the `time.sleep`
  waits are not modelled. Their output is the `Page` sequence.
- The fatal early return when the first page load fails
  (eZamowieniaScraper.py:74-87). A run in the model starts after that load.
- The lookup of the result rows at eZamowieniaScraper.py:108. It sits outside
  the phrase's `try`, so a failure there would end the whole run. The model
  assumes it succeeds.
- `email_send` (eZamowieniaScraper.py:14-29). Only the attempt is modelled, as
  `Notification`. As written, `os.getenv(GMAIL_USER)` reads a local variable
  before it is assigned, so every send raises an error. That error is caught
  and logged at eZamowieniaScraper.py:158-159. Past that point the
  attachment (eZamowieniaScraper.py:25) would be the text of the file name,
  not the file; the model keeps the name.
- JSON serialisation of the result file and the status file, and failures to
  write them. The report and the status are datatypes.
- Logging. The model does not produce log entries. The log's lines, as they
  stand when the check runs (this run's entries included), are a parameter.
  The warning logged after the check (eZamowieniaScraper.py:163) is not
  modelled.
- `datetime.now()`. Today's date string and the float timestamp are
  parameters.
- Opening files, path joining and I/O errors.
- Text.LinesAreLineAt: `splitlines()` splits on `\n` only. Python also
  splits on `\r`, `\r\n`, `\v`, `\f`, `\x1c`-`\x1e`, `\x85`, U+2028 and
  U+2029.
- IdStore.SaveNewIds: the order in which a Python set is iterated is not
  modelled. The contract holds for every order.
- IdStore.LoadAfterAppend: the round trip is stated only for files that are
  empty or end with `\n`, and for ids without a line break. Otherwise an
  appended id joins the old last line, or splits into several lines.
- Pipeline.Run: the id-file round trip and the "nothing twice" property carry
  the same two conditions.
