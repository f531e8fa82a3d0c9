# Transport-slot requests for Lote 95: a Dafny model of the approval workflow

The application is one Streamlit page (`app.py`) over a Google Sheet named
"Solicitudes". A requester fills in a form for one passenger. If the form is
valid, a 28-cell row is appended to the sheet: 16 submission values, then one
block of four cells per approving area. The areas are Security, QHS and
Logística, and they decide in that order. Each block holds a state, a comment,
the approver's name and a review date, and starts as
`["Pendiente", "", "", ""]`. Each area's panel lists the rows it may decide on.
Recording "Aprobada" or "Rechazada" writes the four cells of that area's block.

This project models that core over an in-memory table:

- `dates.dfy` (`Dates`): Python calendar dates, their ordering, the
  `%Y-%m-%d` text stored in the sheet, and `date(today.year - 18, ...)`.
- `text.dfy` (`Text`): `str.strip()` with Python's whitespace set, and
  `", ".join`.
- `email.dfy` (`Email`): `es_correo_valido`, proved equal to the shape its
  regular expression describes.
- `layout.dfy` (`Layout`): the column layout, the areas and their gate order,
  and the three state texts.
- `requests.dfy` (`Requests`): the form, the required-field check, the ordered
  error list, the error messages, the new row and the submit outcome.
- `workflow.dfy` (`Workflow`): the pending filter of each panel, the
  four-cell write of `update_request`, and the table as a transition system
  whose steps are submissions and decisions. It also holds the invariants
  kept along every run.
- `sheet.dfy` (`Sheet`): the worksheet as a class whose `rows` field is
  updated in place. It has `update_cell`, `append_row`, `update_request`, and
  the two button handlers.

There are three gates: Security, QHS and Logística. Submitting a form
checks only four things: blank required fields, the email shape, a request
date equal to today, and a birth date between 1 January 1950 and the date
eighteen years before today. Deciding on a request checks only that an
approver name was typed.

Two behaviours of the code are modelled as written:

- On 29 February, `date(today.year - 18, today.month, today.day)` raises,
  because a leap year minus 18 is never a leap year. The request page therefore
  fails before the form is shown (`Requests.Outcome.PageError`,
  `Dates.EighteenYearsBeforeFailsOnlyOnLeapDay`).
- The approver guard is `if not aprobador`, so only the empty string is
  refused. A name made only of spaces is accepted.

The panels find the state columns by the header names "Estado Security",
"Estado QHS" and "Estado Logística". The header row itself is not part of the
code, so the model reads the state cells by position: columns 17, 21 and 25,
which `update_request` writes. It assumes the header names those columns that
way.

## Model

| member | source | states |
|---|---|---|
| Email.IsValidMatchesPattern | app.py:67-69 | the check accepts an address exactly when it is a non-empty run of `[\w.-]`, one `@`, a non-empty run of `[\w.-]`, a `.`, and a non-empty run of `\w` reaching the end |
| Email.ValidHasOneAt | app.py:67-69 | an accepted address contains exactly one `@` |
| Email.ValidEndsInWordSegment | app.py:67-69 | an accepted address has a `.` followed by a non-empty final segment that contains no `.` and no `-` |
| Email.FirstIndex | app.py:68 | the position found is that of the first `@`; there is none exactly when the address has no `@` |
| Email.LastIndex | app.py:68 | the position found is that of the last `.`; there is none exactly when the text has no `.` |
| Email.RejectsSecondAt | app.py:67-69 | `a@b@c.com` is refused |
| Email.AcceptsExample | app.py:124 | the address of the error message's example, `nombre@dominio.com`, is accepted |
| Email.AcceptsParts | app.py:67-69 | any non-empty `[\w.-]` run, `@`, non-empty `[\w.-]` run, `.` and non-empty `\w` run put together form an accepted address |
| Text.StripIsTrimmedSlice | app.py:117 | `strip()` returns a slice of the field with non-whitespace ends, and everything it cuts away is whitespace |
| Text.StripEmptyIffAllSpace | app.py:117 | a field strips to empty exactly when every character of it is whitespace |
| Text.TrimStartDropsSpacePrefix | app.py:117 | the leading trim removes a whitespace prefix and keeps a suffix starting with a non-space |
| Text.TrimEndDropsSpaceSuffix | app.py:117 | the trailing trim removes a whitespace suffix and keeps a prefix ending with a non-space |
| Text.Join | app.py:122 | joining no labels gives the empty text and joining one label gives that label |
| Text.JoinAppend | app.py:122 | joining one more label appends `", "` and that label, so the missing labels appear in order with `", "` between each two |
| Requests.TextFields | app.py:106-116 | the nine required text fields, with their labels in declared order |
| Requests.MissingFrom | app.py:117 | scanning from a given field on reports at most one label per remaining field |
| Requests.MissingFromInOrder | app.py:117 | the labels reported are exactly those of the blank fields, in declared order, at strictly increasing field positions |
| Requests.MissingLabelsInOrder | app.py:117 | `campos_vacios` lists exactly the labels of the blank fields, in their declared order |
| Requests.NothingMissingIffNoneBlank | app.py:117-122 | nothing is reported missing exactly when no required field is blank |
| Requests.CollectReportsEachFailure | app.py:120-128 | the missing-fields, invalid-email, request-date and birth-date errors are each reported exactly when their check fails |
| Requests.CollectInCheckOrder | app.py:120-128 | the errors come in the order the checks are made (missing fields, email, request date, birth date), so none is repeated, and the missing-fields error carries the missing labels |
| Requests.MessageStart | app.py:122-128 | every message is longer than twelve characters; the missing-fields message starts with `C`, the email message with `E`, and the two date messages with `L`, differing at their thirteenth character |
| Requests.MessagesTellKindsApart | app.py:122-128 | errors of different kinds are shown with different messages |
| Requests.NewRowBlocksPending | app.py:135-137 | each area's block of a new row is `["Pendiente", "", "", ""]` at the columns `update_request` uses |
| Requests.ReadSubmissionBuildRow | app.py:139-145 | the first 16 cells of a new row hold the timestamp and every form value in the listed order, dates as `%Y-%m-%d`; reading them back gives the form |
| Requests.SubmitAcceptsIffChecksPass | app.py:80-146 | the row is saved exactly when the birth-date limit exists, no required field is blank, the email is valid, the request date is today and the birth date is in range; the saved row is the built row, and a refusal carries at least one error |
| Dates.EighteenYearsBefore | app.py:82 | the latest accepted birth date, when it exists, is a valid date with the same month and day eighteen years earlier |
| Dates.EighteenYearsBeforeFailsOnlyOnLeapDay | app.py:82 | for any valid date from year 19 on, that limit fails to exist exactly on 29 February |
| Dates.DaysInMonth | app.py:82 | months have 28 to 31 days, and February has 29 exactly in leap years |
| Dates.Format | app.py:140 | `strftime("%Y-%m-%d")` gives ten characters with `-` at positions 4 and 7 |
| Dates.ParseFormat | app.py:140-143 | the stored date text parses back to the date |
| Dates.FormatInjective | app.py:140-143 | two valid dates are stored as the same text exactly when they are equal |
| Dates.Digits | app.py:140 | exactly `width` characters, each a decimal digit |
| Dates.DigitsRoundTrip | app.py:140 | a number below 10^width is read back from its zero-padded digits |
| Layout.BlocksTileTheRow | app.py:56-60 | each block is four consecutive columns, starting at 17 + 4 × gate rank straight after the 16 submission columns; blocks of different areas are disjoint and together cover columns 17-28 |
| Layout.StateIndex | app.py:57-61 | an area's state cell is its first column in `update_request`, and its block fits in the 28 columns |
| Layout.ParseArea | app.py:208-213 | the panel names "Security", "QHS", "Logística" map to their areas, and any other name to none |
| Workflow.StateText | app.py:194 | a decision writes "Aprobada" or "Rechazada", never "Pendiente" |
| Workflow.PendingFrom | app.py:163-168 | an area lists, in table order, exactly the rows matching its mask |
| Workflow.PendingByName | app.py:163-170 | a panel lists exactly the rows its area's mask accepts, and a name that is no area lists nothing |
| Workflow.EligibleIsSequentialGate | app.py:163-168 | an area lists a row exactly when the row is "Pendiente" there and "Aprobada" at every earlier gate |
| Workflow.EligibleForOneArea | app.py:163-168 | a row is listed by at most one area |
| Workflow.PendingListsDisjoint | app.py:163-168 | the pending lists of two different areas share no row |
| Workflow.RejectionBlocksLaterStages | app.py:163-168 | a row rejected at a gate is listed neither by that gate nor by any later one |
| Workflow.WriteReviewTouchesOnlyItsBlock | app.py:61-65 | a write sets the area's state, comment, approver and date cells, and every other cell of the row, including the other areas' blocks, is unchanged |
| Workflow.ReviewTouchesOnlyItsCells | app.py:194-204 | a recorded decision sets those four cells of the decided row, and every other cell of the table is unchanged |
| Workflow.EmptyApproverChangesNothing | app.py:200-202 | with an empty approver name, the table is left unchanged |
| Workflow.NewRowConsistent | app.py:135-145 | a new row satisfies the workflow invariant |
| Workflow.ReviewKeepsConsistent | app.py:194-204 | a decision on a listed row with an approver name keeps the invariant: states stay within the three texts, a stage is decided only after every earlier stage approved, undecided stages keep empty metadata, decided stages name their approver |
| Workflow.ApplyKeepsConsistent | app.py:130-146 | one submission or decision keeps every row consistent |
| Workflow.RunKeepsConsistent | app.py:163-204 | every sequence of submissions and decisions from consistent rows, an empty sheet included, keeps every row consistent |
| Workflow.ApplyKeepsDecisions | app.py:163-204 | after one action every existing row is still there, and a stage already decided keeps its state, comment, approver and date |
| Workflow.RunKeepsDecisions | app.py:163-204 | along any run, a decided stage never returns to "Pendiente" and its block never changes |
| Workflow.RejectedRowListedNowhere | app.py:163-168 | a consistent row holding a rejection is listed by no panel |
| Workflow.RejectedRowFrozen | app.py:163-204 | once a consistent row holds a rejection, no later action changes it |
| Workflow.ActionableIffOpen | app.py:163-168 | a consistent row is listed by some panel exactly when it has no rejection and some stage is still pending |
| Sheet.Worksheet.AllValues | app.py:45-50 | `get_all_values` is the header followed by the request rows |
| Sheet.Worksheet.GetAllRequests | app.py:45-50 | the table the panels filter is every row after the header, and row `idx` of it is sheet row `idx + 2` |
| Sheet.Worksheet.UpdateCell | app.py:62-65 | `update_cell(r, c, v)` changes only cell (r, c), 1-based |
| Sheet.Worksheet.AppendRow | app.py:41-43 | `append_row` adds the row at the end and keeps every other row |
| Sheet.Worksheet.UpdateRequest | app.py:52-65 | the four writes at sheet row `rowIdx + 2` leave the table as the area's block rewritten in that row, and every other cell of the sheet, header included, is unchanged |
| Sheet.Worksheet.SubmitRequest | app.py:105-146 | the sheet gains the built row exactly when the submission is accepted, and is unchanged otherwise |
| Sheet.Worksheet.RegisterAction | app.py:192-206 | a decision is recorded exactly when an approver name is given, and the table becomes the one the transition system prescribes |
| Sheet.Worksheet.constructor | app.py:31-39 | a fresh sheet holds its header and no request rows |

## Left out

- Streamlit UI is not modelled: page setup, forms, widgets, expanders, `st.rerun` and the success and balloon messages. The error texts are modelled (`Requests.Message`); the loop that shows them is not.
- Widget limits are not modelled: `max_chars`, the date pickers' `min_value`/`max_value`, and the option lists of the select boxes. Form values are arbitrary strings, and dates are arbitrary valid dates.
- gspread, the Google credentials and the cached `get_worksheet` are foreign I/O. The sheet is an in-memory object of 28-column rows, as `get_all_values` returns them padded. The header-row contents are not modelled; the source never contains them.
- `ahora_lima` reads the clock and converts time zones. Creation and review timestamps are therefore opaque string parameters, and today's date (`date.today()`) is a parameter too.
- The panel passwords are credential handling and are not modelled.
- Email.IsValid: `\w` is taken as ASCII `[A-Za-z0-9_]`, while Python's Unicode `\w` also matches other letters and digits. Python's `$` also matches before a final newline, so an address ending in `\n` is accepted by the source and refused by the model.
- Dates.Format: years are zero-padded to four digits. glibc's `strftime` does not pad years below 1000. No date the application can produce is that early.
- Sheet.Worksheet.RegisterAction: requires the row to be on the area's pending list. The panel only shows buttons for such rows, and decisions are assumed to be serialized. A stale `idx` from a concurrent session is not modelled, and neither are writes that race between sessions.
- A failure partway through the four `update_cell` calls is not modelled; each call is assumed to succeed.
- If `update_request` were handed an unknown area, `cols[area]` would raise `KeyError`. No panel can call it with one, and the model's `Area` type has only the three areas.
- Sheet.Worksheet.UpdateCell: stores each value verbatim. gspread's `update_cell` writes with the user-entered input option, so Google Sheets may turn a comment, approver name or date that looks like a formula, number or date into another value; `append_row` writes raw values. The comment, approver and date equalities of the review lemmas, and the "decided stages name their approver" part of the workflow invariant, hold for values Sheets keeps as plain text. The state cells always hold plain text.
