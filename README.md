# SEO enrichment pipeline — a Dafny model

This project models the row-level logic of a pipeline that enriches a table
of magazine web pages with generated SEO text. The model has three parts:

- **Enrichment run** (`utils.py`, module `Scheduler`). A global work budget
  (`loopcount` against `maxloops = 1000`) is claimed once per row.
  `process_row` takes one of two branches:
  - the tag-page branch, for urls containing `/tags/`;
  - the fetch-and-generate branch.

  `main` submits the rows whose `processed` flag is not set, at most
  `maxloops` of them, then writes each worker's result back to its own row.
- **Quality check and repair pass** (`qc.py`, modules `Quality` and `Repair`).
  - The mechanical checks turn one generated text into a list of issue
    messages. The rules are a lower-case first letter, the terms "SEO" and
    "Description", and line breaks.
  - `check_and_report_issues` turns that list into a yes/no answer.
  - The repair loop walks the table. It skips urls containing `tags` and
    gives each failing row one re-scrape-and-revise attempt through
    `correct_and_update_row`.
- **Final clean-up** (`finalclean.py`, module `FinalClean`).
  `conditional_strip` removes one surrounding pair of double quotes. It is
  applied to the `meta_description` and `seo_title` columns.

Supporting modules:

- `Text` writes out the Python string behaviour the code depends on:
  - `in` on strings;
  - `split(sep)[-1]`, as Python's left-to-right non-overlapping split;
  - `strip()`;
  - clamped slicing;
  - ASCII `islower`.
- `Generation` holds the page scraper and the completion services as oracle
  functions. It keeps only the wrapper behaviour the code adds around them:
  a `None` text becomes "No Info Provided", and a raised call, an empty list
  of choices or a `None` content gives "Failed to generate description".
- `Rows` is the page record.

The table is an `array<Row>` that the repair pass and the enrichment run
update in place. The budget is a class whose `Claim` method is the locked
check-and-increment. The final clean-up's table is a class with a map from
column names to columns.

The thread pool is modelled sequentially, with two orders given as
parameters:

- the order in which workers claim the budget;
- the order in which their results complete.

Results are consumed in completion order. The first result that raises ends
the run, and the table is then not written back.

Three behaviours of the code are easy to miss, and the model follows the
code in each:

- **Quote stripping is not idempotent.** `conditional_strip` removes one
  pair of quotes per call, so `""a""` becomes `"a"` and then `a`. Running the
  clean-up twice can therefore change a cell again. See
  `FinalClean.OnePairPerCall` and `FinalClean.SecondApplication`.
- **A failed fetch still counts as success.** In `process_row`, the non-tag
  branch always reports success, even when the scrape gives two empty
  strings, so that row is marked processed and is not retried.
- **The tag-page branch always raises.** It binds
  `generated_meta_description` but returns `meta_description`, which that
  path never binds (utils.py:115, 124). The outcome is modelled as an error,
  and consuming it aborts the run.

## Model

| member | source | states |
|---|---|---|
| Quality.MechanicalTextChecks | qc.py:20-41 | The report is exactly the messages of the rules the text breaks, in rule order (capitalization, "SEO", "Description", line breaks), or the single pass message when none fires. |
| Quality.ReportMembership | qc.py:24-35 | Each issue message is in the report if and only if its rule fires: lower-case first letter, "SEO" occurring, "Description" occurring, '\n' or '\r' present. The pass message is there if and only if no rule fires. |
| Quality.ReportIsPassOnlyWhenClean | qc.py:41 | The report equals `["No issues detected."]` if and only if no rule fires. |
| Quality.ReportSize | qc.py:21-41 | The report is never empty and holds at most four messages. |
| Quality.SelfReferenceOrder | qc.py:28-31 | When both terms occur, the "SEO" message directly precedes the "Description" message, right after the capitalization message if that fires. |
| Quality.MessagesDistinct | qc.py:25-35 | No two rules give the same message. |
| Quality.ViolationsAreIssues | qc.py:25-41 | No issue message equals the pass message. |
| Quality.InViolations | qc.py:24-35 | A message is reported if and only if some rule in the list fires and gives that message. |
| Quality.CheckAndReportIssues | qc.py:56-61 | Returns true if and only if some rule fires, which is the same as the report differing from the pass message. |
| Repair.Revision | qc.py:156-163 | There is no revision exactly when the re-scraped title or body is empty. Otherwise it is the scraped title plus the revised description and SEO title, asked about the body prefixes of length min(len, 1000) and min(len, 500). |
| Repair.CorrectAndUpdateRow | qc.py:151-169 | Returns true exactly when the re-scrape gives a non-empty title and body. The table then differs from before only at `index`, where exactly title, description and SEO title are overwritten. On failure the table is unchanged. |
| Repair.RepairPass | qc.py:172-188 | Every row ends up as its repaired form, and the report records for each row whether it was skipped as a tag page, had no issues, was corrected, or failed correction. Each row is visited once, in table order. |
| Repair.RepairFrame | qc.py:172-188 | The pass never changes a row's url, id or processed flag, and never changes a row whose url contains "tags". It changes a row only when one of its two texts fails the checks, and then to exactly what the revision gives. |
| Repair.RepairSettles | qc.py:172-188 | A row the pass leaves passing the checks is left alone by a second pass. |
| Repair.LowercaseDescriptionRepaired | qc.py:172-188 | A non-tag row whose description starts with a lower-case letter gets the revised description, and is reported as corrected, when the re-scrape succeeds. |
| Generation.Generate | utils.py:38-66 | An unusable reply (raised, no choices, or `None` content) gives the failure sentinel. A usable one gives the stripped first content, which is empty or starts and ends with a non-whitespace character. |
| Scheduler.WorkBudget.constructor | utils.py:12-13 | The budget starts at 0 with a ceiling of 1000. |
| Scheduler.WorkBudget.Claim | utils.py:103-106 | If and only if the budget is not spent, the claim succeeds and the count goes up by exactly one. Otherwise the count is unchanged. `loopcount <= maxloops` is kept. |
| Scheduler.FetchFields | utils.py:119-122 | The fetched fields are the scraped title plus descriptions generated from the body prefixes of length min(len, 1000) and min(len, 500). |
| Scheduler.ProcessRow | utils.py:99-124 | Without budget the result is `None` and the count is unchanged. Otherwise the count goes up by one and the result is that of the row's branch. |
| Scheduler.BranchOutcomes | utils.py:113-124 | A url containing `/tags/` always gives the failing tag outcome, with title "Tagged: " + tag, the tag ending the url after a separator and holding none, and the SEO title generated about "Articles related to <tag> on RVA Magazine". Any other url gives success with the scraped title. |
| Scheduler.TagIsLastPiece | utils.py:114 | The tag is a suffix of the url preceded by `/tags/` and contains no `/tags/`. |
| Scheduler.TagOfSimpleUrl | utils.py:114 | For `<p>/tags/<tag>` with a slash-free tag and `p` not ending in `/tags`, the extracted tag is exactly `<tag>`. |
| Scheduler.PendingIndices | utils.py:133-134 | The pending indices are exactly the unprocessed rows, in increasing order. |
| Scheduler.SubmittedIndices | utils.py:133-137 | At most `maxloops` rows are submitted, each unprocessed and each once. When no more than `maxloops` are pending, all of them are submitted. |
| Scheduler.SubmitRows | utils.py:131-137 | The submission loop submits exactly the first `maxloops` pending rows, in table order. |
| Scheduler.RunWorkers | utils.py:99-106 | Each submitted row gets one result: the outcome of its worker given the claims made before it. The count becomes min(maxloops, start + number of workers). |
| Scheduler.Consumed | utils.py:140-141 | Results are consumed in completion order up to, but not including, the first one that raises. |
| Scheduler.ApplyResults | utils.py:140-147 | The status names the first raising result, or is Finished. The table is the old one with the consumed results applied in completion order. |
| Scheduler.ApplyAllAt | utils.py:142-147 | Each row depends only on its own result: a row in the order gets its result applied once, and any other row is unchanged. |
| Scheduler.CompletionOrderIrrelevant | utils.py:140-147 | Applying the same results in any other order of the same rows gives the same table. |
| Scheduler.Run | utils.py:127-149 | The count ends at min(maxloops, start + submitted). Unsubmitted rows are unchanged, and every url and id is kept. A set `processed` flag stays set. Every row either keeps its old value or is a non-tag row holding its fetched fields with `processed` set, also when the run aborts; the row whose result aborted the run is unchanged. A finished run leaves every submitted row fetched and marked processed. From a fresh budget the run never hits the spent budget, and with no tag rows among the submitted ones it finishes (for a scraper that does not raise). |
| Scheduler.RunPartial | utils.py:140-147 | Whatever prefix of the completion order was consumed, each row is either unchanged or a non-tag row holding its fetched fields with `processed` set. |
| Scheduler.AbortedRowKept | utils.py:140-147 | The row whose result ends the loop is not written: it keeps its old value. |
| Scheduler.ConsumedIsFetched | utils.py:141-147 | A result that reports success belongs to a non-tag row and holds that row's fetched fields. |
| Scheduler.RunFrame | utils.py:134-147 | A run changes only submitted rows and keeps every url, id and set processed flag. |
| Scheduler.RunFinished | utils.py:141-147 | When every result is consumed, each submitted row is a non-tag row holding its fetched fields, with `processed` set. |
| Scheduler.RunWithinBudget | utils.py:127-149 | Starting from a zero count, no consumed result is the spent-budget `None`, so any abort is the tag-page error. The run finishes when no submitted row is a tag row. Both hold for a scraper that does not raise. |
| Scheduler.WithinBudget | utils.py:103-106 | With at most `maxloops` workers and a zero start, every worker runs its branch. |
| Scheduler.RunEffect | utils.py:142-147 | Applied rows get their result and all others are unchanged. Every url and id is kept, and set flags stay set. |
| Scheduler.SecondRunIdle | utils.py:133-134 | After a run that marked every submitted row processed, with no more than `maxloops` pending, a second run submits nothing. |
| Scheduler.TagPagesSkippedByRepair | utils.py:113 | Every url the enrichment run treats as a tag page contains "tags", so the repair pass (qc.py:173) skips it. |
| Text.LastPieceSpec | utils.py:114 | `split(sep)[-1]` contains no `sep`, is preceded by `sep` when `sep` occurs, and is the whole string otherwise. |
| Text.StripKeepsCore | utils.py:63 | `strip()` keeps a contiguous piece of the text, and everything it cuts off before that piece is whitespace. |
| Text.StripDropsTrailingSpace | utils.py:63 | Everything `strip()` cuts off after the piece it keeps is whitespace. |
| Text.PrefixSlice | utils.py:121-122 | `body[:n]` is the prefix of length min(len, n). |
| Text.InnerSlice | finalclean.py:18 | `value[1:-1]` has length max(0, len - 2), and is the string without its first and last characters when the length is at least 2. |
| FinalClean.ConditionalStrip | finalclean.py:14-19 | A quote-wrapped string loses exactly its first and last characters, so its length becomes max(0, len - 2). Any other string, and any non-string, is returned unchanged. |
| FinalClean.StripUnwraps | finalclean.py:17-18 | Wrapping any string in quotes and stripping gives the string back. |
| FinalClean.LoneQuoteVanishes | finalclean.py:17-18 | The one-character string `"` becomes the empty string. |
| FinalClean.OnePairPerCall | finalclean.py:17-18 | `""a""` becomes `"a"`, and a second application changes it again. |
| FinalClean.SecondApplication | finalclean.py:16-19 | A second application is the identity if and only if the first result is not quote-wrapped. |
| FinalClean.StripColumn | finalclean.py:24 | The column keeps its length, and each cell is the stripped form of the old cell. |
| FinalClean.StripColumnTwice | finalclean.py:24 | Cleaning a column twice equals cleaning it once if and only if no cell left by the first pass is quote-wrapped. |
| FinalClean.WarningCount | finalclean.py:22-26 | There are at most as many warnings as fields. There are none if and only if every field exists. |
| FinalClean.Frame.StripQuotedFields | finalclean.py:12-26 | No column is added or dropped, and each existing listed column becomes its cleaned copy. Every other column is unchanged, and there is one warning per missing listed field, in list order. |

## Left out

- `scrape_webpage` (utils.py:23-35) is an oracle from a url to a (title, body text) pair. HTTP and HTML parsing are not modelled. A non-200 response is covered, since the oracle may give two empty strings.
- Scheduler.Run, Scheduler.RunWithinBudget and Repair.CorrectAndUpdateRow assume the scraper never raises. In the program, `requests.get` (utils.py:25) raises on a connection error, a DNS failure or a malformed url. In `process_row` that exception reaches `future.result()` (utils.py:141) and aborts `main` with nothing written back. In the repair loop it escapes `correct_and_update_row` (qc.py:156) and ends the script. So the guarantees that every abort is the tag-page error, and that a run without submitted tag rows finishes, hold only for a scraper that does not raise.
- The completion calls and their prompt texts (utils.py:39-96, qc.py:64-147) are oracles given the title and the excerpt. Only the `None`-text default and the failure sentinel are modelled.
- The thread pool, the lock and `time.sleep(0.5)` are not modelled. Claims are atomic steps taken in a claim order, and results arrive in a completion order. Both orders are parameters.
- The interleaving of claims with result handling is not modelled: all submitted workers claim before any result is read. The `with ThreadPoolExecutor` block waits for every submitted task before it is left, also when a result raises, so every submitted worker claims once and the final count min(maxloops, start + submitted) is the program's.
- The CSV reads and writes, the spaCy model load, the client construction and `debug_decorator` are not modelled. None of them affect the table.
- Console output that does not affect the table is not modelled: the decorator's return-value prints, the "Processing ..." progress line, the "Error during API call" and "Failed to retrieve the webpage" prints, the per-issue prints of the checks, "Failed to re-scrape", the final "Data processed" line, and `process_text_entries` (qc.py:44-53), which only prints. The missing-column warning of the clean-up is modelled by FinalClean.WarningCount and the warnings returned by FinalClean.Frame.StripQuotedFields, and the per-row messages of the repair loop (qc.py:184-188) by the report of Repair.RepairPass. Its `SkippedTag` entry stands for the silent `continue` of qc.py:173-174, which prints nothing.
- config.py is not part of this model. Its constants appear only as the model's parameters and constants.
- Text.IsLower and Text.IsSpace cover ASCII only. Python's Unicode rules for `islower` and `isspace` are not modelled.
- Quality.MechanicalTextChecks requires a non-empty text, because the source reads `text[0]` and faults on an empty cell.
- Repair.RepairPass requires every non-tag row to have non-empty texts, for the same reason. A missing (NaN) cell is not modelled.
- Rows.Row models `processed` as a boolean, so a missing value reads as not processed, which is how `!= True` treats it.
- FinalClean.Cell models numbers as reals and has no other non-string kinds. `conditional_strip` returns all of them unchanged.
