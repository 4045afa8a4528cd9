# Portfolio backend: contact ledger and page-view analytics

A Dafny model of the only stateful behaviour of the portfolio server
(`server/server.js`). That behaviour is the in-memory database `db`, which
holds a log of contact-form submissions and the page-view counters. The model
also covers the validation the two write endpoints apply before changing it,
the ticket number given to each submission, and the counts the listing and
health endpoints report.

- `wrappers.dfy` (`Wrappers`): Option and Result.
- `email.dfy` (`EmailFormat`): the contact form's email regex
  `^[^\s@]+@[^\s@]+\.[^\s@]+$`. It holds `\s` as the ECMAScript WhiteSpace and
  LineTerminator sets (ECMA-262, 2023 edition, sections 12.2 and 12.3). It
  states what the regex accepts as a split `A@B.C` of the string
  (`EmailPattern`), and defines an equivalent set of plain conditions
  (`ValidEmail`: exactly one `@`, no whitespace, a non-empty local part, and a
  `.` in the domain that is neither its first nor its last character). A
  single-pass scanner (`TestEmail`) stands for `emailRegex.test`.
- `ticket.dfy` (`Ticket`): `Date.now().toString().slice(-8)` as decimal
  formatting plus JavaScript's `String.prototype.slice` with a negative start,
  and the ticket `"TKT-" + …`.
- `validation.dfy` (`Validation`): JavaScript truthiness of optional body
  fields, the `subject || "General Inquiry"` default, the contact and page-view
  checks in the handlers' order, and the error bodies.
- `page_views.dfy` (`PageViews`): the counter map, the `(pageViews[page] || 0) + 1`
  update and the sum of all counts.
- `ledger.dfy` (`Server`): the record type and the class `Ledger`. Its fields
  `messages`, `pageViews` and `totalVisitors` are updated in place by
  `SubmitContact` and `RecordPageView` and read by `ListMessages` and `Health`.
  `Valid()` states three things: `totalVisitors` is the sum of the page
  counts, every page key has count at least 1, and every stored record has
  status `"new"`.
- `scenarios.dfy` (`Scenarios`): sample addresses, plus client methods that
  drive one fresh `Ledger` through three request sequences. In the first,
  three views of `"home"` answer 1, 2 and 3. In the second, health reads 0/0
  at start and 1/1 after one contact and one page view. In the third, a
  submission missing a field and also having a bad email is refused for the
  missing field.

Inputs that the server reads from the runtime are passed in as parameters.
`SubmitContact` takes `idClock` (the `Date.now()` for `id`), `isoTime` (the
`toISOString()` string, kept opaque) and `ticketClock` (the second
`Date.now()`, for the ticket). These are separate clock reads in the source.
Request-body fields are `Option<string>`, where `None` means absent.

## Model

| member | source | states |
|---|---|---|
| `EmailFormat.IsWs` | server/server.js:271 | The `\s` test never accepts `@` or `.`, so whitespace and the pattern's two separators never overlap. |
| `EmailFormat.IsWsStandard` | server/server.js:271 | A character passes the `\s` test exactly when it is one of the code points ECMA-262 (2023 edition) lists as WhiteSpace (section 12.2) or LineTerminator (section 12.3), written out one by one. |
| `EmailFormat.EmailPatternIff` | server/server.js:271 | The regex accepts a string (split `A@B.C` into three non-empty `[^\s@]` runs) exactly when the string has one `@`, no ECMAScript whitespace, a non-empty local part, and a `.` inside the domain that is neither its first nor its last character. Both directions are proved. |
| `EmailFormat.TestEmail` | server/server.js:271-272 | The one-pass scan returns true exactly when the string satisfies the plain conditions, and so exactly when the regex matches. |
| `EmailFormat.PatternShape` | server/server.js:271 | In any accepted address, every two `@` positions are equal, and no character is whitespace. |
| `Ticket.Decimal` | server/server.js:288 | `toString()` of a timestamp is a non-empty string of decimal digits with no leading zero, except for the number 0. |
| `Ticket.JsSlice` | server/server.js:288 | `slice(start)` always returns a suffix. With a negative start it keeps the last `-start` characters, or the whole string when that is shorter. With a non-negative start it drops `start` characters. |
| `Ticket.TicketNumber` | server/server.js:288 | The ticket is `"TKT-"` followed by digits. Those digits are the last `min(8, len)` characters of the timestamp's decimal form. |
| `Ticket.DecimalRoundTrip` | server/server.js:288 | Reading the decimal form back gives the timestamp. |
| `Ticket.DecimalInjective` | server/server.js:288 | Different timestamps have different decimal forms. |
| `Ticket.DecimalLength` | server/server.js:288 | The decimal form has more than k digits (k >= 1) exactly when the timestamp is at least 10^k. |
| `Ticket.SuffixValue` | server/server.js:288 | The last k digits of a digit string denote its value modulo 10^k. |
| `Ticket.TicketLength` | server/server.js:288 | The ticket has length 12 exactly when the timestamp is at least 10^7. |
| `Ticket.TicketDigitsValue` | server/server.js:288 | The ticket's digits denote the timestamp modulo 10^8, also when the timestamp has fewer than 8 digits. |
| `Ticket.TicketCollision` | server/server.js:288 | For timestamps of 8 or more digits, two tickets are equal exactly when the timestamps agree modulo 10^8. |
| `Validation.ApiError.Text` | server/server.js:265-325 | The `error` string is "Missing required fields", "Invalid email format" or "Page name required", and each string identifies its error. |
| `Validation.ApiError.Required` | server/server.js:263-267 | Only the missing-fields error carries a `required` list, and that list is `["name","email","message"]`. |
| `Validation.Present` | server/server.js:263-324 | A body field passes the truthiness test (`!name`, `!page`) exactly when it is present and not the empty string. |
| `Validation.SubjectOrDefault` | server/server.js:284 | The stored subject is never empty. It is the caller's subject when that is present and non-empty. Otherwise it is `"General Inquiry"`. |
| `Validation.ValidateContact` | server/server.js:262-277 | The result is "Missing required fields" exactly when name, email or message is absent or empty, whatever the email looks like. It is "Invalid email format" exactly when all three are present and the email does not match the regex. Otherwise the submission is accepted. |
| `Validation.CheckContact` | server/server.js:262-277 | The handler's own order of checks (the truthiness test, then the one-pass regex scan) gives exactly the `ValidateContact` verdict. Only a missing-field verdict carries the `required` list. |
| `Validation.ValidatePageView` | server/server.js:324-326 | A page view is accepted exactly when `page` is present and non-empty. Otherwise the error is "Page name required". |
| `PageViews.Views` | server/server.js:329 | `pageViews[page] \|\| 0` is the stored count when the page has a key, and 0 otherwise. |
| `PageViews.Bump` | server/server.js:329 | After one view, the page's key exists and its count is the old count (0 if absent) plus 1. Every other key's count is unchanged, and no other key is added. If every key already had a count of at least 1, that stays true. |
| `PageViews.SumBump` | server/server.js:329-330 | One view raises the sum of all page counts by exactly 1, which keeps the sum equal to `totalVisitors++`. |
| `PageViews.SumRemove` | server/server.js:329-330 | The sum of the counts is the same whichever key is taken out first. |
| `PageViews.KeysAtMostSum` | server/server.js:38-41 | When every count is at least 1, the number of distinct pages is at most the sum of the counts. |
| `Server.CountStatus` | server/server.js:369 | The `filter(status === st).length` count never exceeds the log's length. |
| `Server.CountStatusAll` | server/server.js:369 | The `filter(status === st).length` count equals the log's length exactly when every record has status st. |
| `Server.NewRecord` | server/server.js:280-289 | The stored record has status `"new"` and a non-empty subject. The subject is the caller's when present and non-empty, and `"General Inquiry"` otherwise. Its ticket has length 12 exactly when the ticket clock reading is at least 10^7. |
| `Server.Ledger.constructor` | server/server.js:21-27 | The database starts with no messages, no page keys and a zero tally, and satisfies the invariant. |
| `Server.Ledger.SubmitContact` | server/server.js:258-292 | It may change only the log, so the counters are untouched. On a validation error the result is that error and the log is unchanged. On success, exactly one `NewRecord` is appended at the end, and earlier records are unchanged and in order. That record has the given name, email and message, the defaulted subject, status `"new"`, `id` from the first clock read and the ticket from the second. The receipt echoes the ticket and timestamp. The invariant is kept. |
| `Server.Ledger.RecordPageView` | server/server.js:321-340 | With no page: "Page name required", and nothing changes. Otherwise the counters become `Bump` of the old map and `totalVisitors` rises by 1. The answer reports the page, its new count and the new tally. It may change only the counters, so the log is untouched. The accept/reject decision is `ValidatePageView`. The invariant (tally = sum of counts) is kept. |
| `Server.Ledger.ListMessages` | server/server.js:364-373 | `total` is the log's length, `new` is the number of `"new"` records, and the log is returned in order. `new == total`, because every stored record is `"new"`. |
| `Server.Ledger.Health` | server/server.js:38-41 | `messages` is the log's length and `analytics` is the number of distinct page keys, which never exceeds `totalVisitors`. |
| `Scenarios.AcceptedAddresses` | server/server.js:271 | `a@b.co` and `a@b.c.` match the regex. |
| `Scenarios.AcceptedSubmission` | server/server.js:262-277 | Name `Ann`, email `a@b.co` and message `Hi` pass both checks. |
| `Scenarios.RejectedAddresses` | server/server.js:271 | `not-an-email` and `a@.co` do not match. |
| `Scenarios.RejectedShapes` | server/server.js:271 | `a b@c.d` (whitespace) and `a@b@c.d` (two `@`) do not match. |

## Left out

- Static payload endpoints (portfolio, skills, experience, certifications, resume): literal data with no behaviour.
- CORS, body parsing, the request logger and every `console.log`: configuration and output. The response's `nextSteps` list and success message are constant text and are not modelled.
- Clock and process reads: `Date.now()` and `toISOString()` are parameters, and calendar formatting of the ISO string is not modelled. `process.uptime()` and `process.memoryUsage()` in health are runtime metrics and are left out. So are the health `status` and `timestamp` members.
- The 404 and 500 handlers, the base-36 request id, `app.listen`, the PORT default and the banner: error plumbing and start-up.
- HTTP status codes appear only as `ApiError.Status()` (400). The 201 and 200 success statuses and the envelope's `success` flag are implied by the `Ok` result.
- JavaScript dynamic typing: non-string body values coerced by the regex or used as object keys, and prototype keys such as `"__proto__"` in `pageViews`. All body fields are modelled as optional strings.
- Characters: Dafny strings are sequences of Unicode scalar values, while the regex (no `u` flag) runs over UTF-16 code units. Neither surrogate half is whitespace or `@`, so both accept the same well-formed strings. Strings holding lone surrogates cannot be expressed.
- Server.Ledger.RecordPageView: page counts and `totalVisitors` are unbounded naturals that always rise by exactly 1. In the source they are IEEE-754 doubles. From 2^53 on, `++` and `+ 1` leave them unchanged, so the source stops counting there, and its tally can then differ from the sum of the counts.
- Timestamps are non-negative integers, formatted in plain decimal. `Number.prototype.toString` switches to exponent notation only from 10^21, far beyond millisecond clock values.
- The express request loop and concurrency: the model is sequential method calls on one `Ledger`, the single-threaded behaviour the source relies on.
