# Hawk: a verified model of the Gemini chat scraper's core

Hawk is a terminal client for the Gemini web chat. It asks a question through a
browser the program drives. It then waits for the answer to stop growing,
scrapes the answer text from the page, and shows it. The answer is shown as a
table when it contains a markdown table, and as plain text otherwise.

This project models the parts of `hawk.py` that decide what is sent, when the
answer is considered finished, what text is taken as the answer, and how that
text becomes a table. The browser is replaced by parameters:

- `deliver` is what submitting a prompt returns, or the exception it raises.
- `samples` is the stream of body-text lengths that successive polls read.
- `Fetch` values are the results of the answer query and of the body-text
  read, each of which may raise.

The modules follow the program:

- `Text`: the Python string operations the code relies on: `strip`,
  `split`, `join`, ASCII `lower` and the substring test.
- `TableParser`: `ResponseFormatter.parse_markdown_table`, written as the
  source's loop. It is specified by the function `Parse`. A renderer
  `Render` writes a table back as markdown, to state the round trip.
- `TableExample`: a three-line comparison answer (`Feature | A | B`, a dash
  line, `Speed | Fast | Slow`) worked through the parser.
- `TableRows`: the in-place padding of data rows in `create_rich_table`
  (a `Row` class whose list is appended to), and the table-or-text
  decision of `display_response`.
- `Classifier`: `is_comparison_question`, the prompt `send_question`
  builds, and `send_question`'s outcome.
- `CompletionDetector`: `wait_for_response` as a polling loop, with a tick
  counter for the clock.
- `Extractor`: the four selector strategies of the page script, and
  `get_response` with its body-text fallback loop.
- `Session`: `ask`, and the quit and blank-input checks of the
  interactive loop.

Three details of the code that the model follows:

- the parser drops every empty cell, wherever it sits in the row;
- rows are padded only in `create_rich_table`, never in the parser;
- the fallback keeps stripped lines longer than 20 characters.

## Model

| member | source | states |
|---|---|---|
| TableParser.ParseMarkdownTable | hawk.py:279-307 | The line-by-line loop returns exactly `Parse(text)`: the header is the first surviving row, and the data are the later surviving rows, in order. |
| TableParser.Cells | hawk.py:292-293 | Every cell kept is non-empty and has no edge whitespace. There are never more cells than pieces. |
| TableParser.CellsMembers | hawk.py:292-293 | A cell is kept exactly when it is the non-empty stripped form of some piece of the line. |
| TableParser.CellsSnoc | hawk.py:292-293 | The cells follow the pieces' order: one more piece adds its stripped form at the end, unless that is empty. |
| TableParser.RowOf | hawk.py:286-300 | A line contributes a row only if it is non-empty and not a separator row. That row's cells are non-empty, stripped and free of `\|`. |
| TableParser.RowOfIff | hawk.py:286-300 | A line contributes a row exactly when its stripped form holds `\|` and some piece strips to a non-empty cell that is not a separator cell. That row is then the cells of the line's pieces. |
| TableParser.TableOf | hawk.py:282-305 | No header exactly when no row survived, and then no data. Otherwise the header followed by the data is exactly the surviving rows. |
| TableParser.SeparatorCellIff | hawk.py:299 | The separator test holds exactly when the cell contains only `-`, `:` and whitespace. |
| TableParser.SeparatorRowIff | hawk.py:299 | A row is skipped as a separator exactly when every one of its cells passes the separator test. |
| TableParser.RemoveIff | hawk.py:299 | `replace(x, '')` keeps exactly the characters other than `x`. |
| TableParser.ParseWellFormed | hawk.py:285-305 | No header or data cell is empty, carries edge whitespace, or holds `\|` or a line break. No row is a separator row. |
| TableParser.ParsePlainText | hawk.py:288-289 | Text without `\|` (the empty text included) gives `(None, [])`. |
| TableParser.ParseValid | hawk.py:279-307 | Every parse result has data only under a header, and every row is well formed. |
| TableParser.RowsWellFormed | hawk.py:285-305 | Every row that lines without line breaks contribute is well formed. |
| TableParser.RowOfRender | hawk.py:286-300 | A well-formed row written as `\|a\|b\|` is read back as that same row. |
| TableParser.RowsOfRendered | hawk.py:285-305 | Well-formed rows written one per line are read back as those rows, in order. |
| TableParser.RenderRoundTrip | hawk.py:279-307 | Writing a valid table as markdown and parsing it again gives the same header and data. |
| TableParser.ParseRenderParse | hawk.py:279-307 | Parsing is stable: re-parsing the rendering of a parse result gives that result. |
| TableExample.ParseComparisonExample | hawk.py:279-307 | `Feature \| A \| B`, a dash line and `Speed \| Fast \| Slow` parse to header `[Feature, A, B]` and the single data row `[Speed, Fast, Slow]`. |
| TableExample.DashRow | hawk.py:298-300 | The line `---\|---\|---` contributes no row. |
| TableExample.HeaderRow | hawk.py:286-293 | Spaces around the cells of `Feature \| A \| B` are stripped. |
| TableRows.PadRow | hawk.py:327-328 | Padding leaves the row as its original cells, followed by `""` up to the header width. A row already that wide is unchanged. |
| TableRows.PadTo | hawk.py:327-328 | The padded row keeps the original cells as a prefix. It has the header width or its own, whichever is larger, and every added cell is `""`. |
| TableRows.Fit | hawk.py:329 | The cells handed to the table number exactly the header width. Each is the row's own cell at that position, or `""` past its end. |
| TableRows.TableCells | hawk.py:326-329 | Every data row is padded in place, and the cells shown for row k are `Fit` of its original cells. This holds even if one list object occurs twice in the data. |
| TableRows.ShowsAsTableIff | hawk.py:347-349 | A response is shown as a table exactly when at least two rows survive the parser. |
| TableRows.PlainTextNotTable | hawk.py:347-349 | A response without `\|` is always shown as plain text. |
| Classifier.ComparisonIff | hawk.py:56-64 | A question is a comparison request exactly when its lower-cased text contains one of the fifteen keywords. |
| Classifier.KeywordFlags | hawk.py:56-64 | A keyword written anywhere in the question, in lower case, flags it. |
| Classifier.ClassificationIgnoresCase | hawk.py:64 | Two questions of the same length whose characters agree at every position, or differ only as the upper- and lower-case form of one ASCII letter, are classified alike. |
| Classifier.DifferenceQuestionFlagged | hawk.py:56-64 | "What is the difference between A and B?" is a comparison request. |
| Classifier.SummaryQuestionNotFlagged | hawk.py:56-64 | "Summarize this article" is not a comparison request. |
| Classifier.Prompt | hawk.py:66-83 | The prompt always starts with the question unchanged. The table directive follows exactly for comparison requests; otherwise the prompt is the question itself. |
| Classifier.SendQuestion | hawk.py:66-159 | The question counts as sent exactly when delivering its prompt reports an input element was found. An exception or a false report means not sent. |
| CompletionDetector.Step | hawk.py:169-183 | A failed read changes nothing. An equal length raises the count by one and keeps the length. A new length is recorded and the count restarts. |
| CompletionDetector.WaitForResponse | hawk.py:161-187 | Always returns true, and the time slept is two per poll. It ends early exactly when some poll before the timeout reaches a count of three, and it ends at the first such poll. Otherwise it runs until the timeout, with every poll started before it. |
| CompletionDetector.StabilityNeedsThreeReads | hawk.py:173-177 | Ending early needs at least three successful reads of the recorded length, hence at least three polls. |
| CompletionDetector.SteadyAnswerEndsEarly | hawk.py:168-177 | Four equal successful reads that fit before the timeout end the wait early. |
| CompletionDetector.ChangingAnswerTimesOut | hawk.py:168-187 | An answer whose reads all succeed, whose first length is not 0, and whose length changes at every poll never ends the wait early. |
| CompletionDetector.GrowingAnswerTimesOut | hawk.py:168-187 | An answer that grows by one character per poll never ends the wait early. |
| CompletionDetector.FailedReadsChangeNothing | hawk.py:182-183 | Reads that always raise leave the detector in its starting state. |
| Extractor.LatestLong | hawk.py:216-222 | The backward scan finds the latest of the last five matches whose text is longer than 30 characters, or reports that none is. |
| Extractor.QueryScript | hawk.py:195-233 | The first strategy that matches answers. Strategies 1, 2 and 4 answer with their last match, and strategy 3 with the latest long one among the last five messages. The script answers null exactly when none of these applies, and any answer is the text of a matched element. |
| Extractor.ShortFirstMatchFallsBack | hawk.py:199-203 | A too-short strategy-1 match sends `get_response` to the fallback; the later strategies are never consulted. |
| Extractor.KeptLines | hawk.py:244-251 | The fallback loop collects exactly the stripped substantive body lines, in page order. |
| Extractor.SubstantialMembers | hawk.py:248-251 | A line is kept exactly when it is the stripped form of some body line, is longer than 20 characters, and has no skip keyword. |
| Extractor.GetResponse | hawk.py:189-261 | `get_response` returns `ExtractedResponse`. That is the stripped query answer when it exceeds 20 characters, else the last ten kept lines, else the fixed message. An error string replaces the result when a browser call raises. |
| Extractor.ExtractedResponseLong | hawk.py:237-261 | Whatever the page does, `get_response` returns a string longer than 20 characters. |
| Extractor.FallbackShape | hawk.py:253-255 | The fallback text splits back into the last ten (or fewer) kept lines, each stripped and substantive. |
| Extractor.NoSubstantiveLineGivesMessage | hawk.py:253-257 | When no body line is substantive, the result is the fixed "could not extract" message. |
| Session.Ask | hawk.py:263-269 | When sending fails, `ask` answers the failure message and waits for nothing. Otherwise it answers exactly what `get_response` yields, after waiting between 6 and 60 time units. |
| Session.AnswerIsLong | hawk.py:263-269 | Every answer `ask` gives is longer than 20 characters. |
| Session.FailedAnswerShownAsText | hawk.py:269 | The send-failure answer is shown as text, never as a table. |
| Session.QuitIsTrimmed | hawk.py:392-398 | A quit command has no edge whitespace and is never blank input. |
| Session.PaddedQuitIsAQuestion | hawk.py:392-398 | ` quit` is neither a quit command nor blank, so it is sent as a question. |
| Text.JoinSplit | hawk.py:244 | Joining the pieces of `split(sep)` with `sep` gives the string back. |
| Text.SplitJoin | hawk.py:255 | `split(sep)` undoes `sep.join(parts)` when no part holds `sep`. |
| Text.StripEmptyIff | hawk.py:396 | `strip()` gives the empty string exactly when every character is whitespace. |
| Text.ContainsIff | hawk.py:64 | The substring test holds exactly when the keyword occurs at some index. |

## Left out

- Browser start-up and navigation (`open_gemini`, `close`) and the page script that types and submits the prompt: the browser is a parameter, and submitting a prompt is the `Delivery` result.
- Every real sleep and the wall clock. `wait_for_response` counts only its own two-unit sleeps, so the time its body-text reads take is not part of the clock. The sleeps in `send_question` and `get_response` have no effect on results and are left out.
- CompletionDetector.WaitForResponse: it counts only its own sleeps toward the timeout, because the time the reads take depends on the browser.
- Console output, the rich `Table` and `Panel` objects, column colours and the banner: these only present text, except that printing can raise (see the last line).
- The interactive loop in `main` as a loop: only its two input checks are modelled.
- `lower()` and `strip()` beyond what is written here. `Lower` folds ASCII letters only, while Python folds every cased Unicode letter. `Strip` removes Python's `isspace` characters as listed in `Text.IsSpace`.
- Extractor.QueryScript: JavaScript counts string length in UTF-16 code units, while the model counts characters. Non-string script results are not modelled.
- Selector matching in the page script: each strategy's matches are given as a sequence of elements.
- Console output that can raise: Rich reads markup in the text passed to `console.print`, so an unmatched closing tag such as `[/]` makes it raise `MarkupError`. At hawk.py:85 the question is printed outside the `try` of `send_question`, at hawk.py:158 the exception message is printed inside the `except` of `send_question`, and at hawk.py:260 the exception message is printed inside the `except` of `get_response`. The model treats printing as unable to fail, so `SendQuestion`, `ExtractedResponseLong` and `AnswerIsLong` hold only when these prints do not raise; a raise here escapes `ask`.
