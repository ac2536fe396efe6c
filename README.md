# serv00 availability monitor — decision core

`monitor.py` watches the serv00.com homepage. On every check it reads the
account counter (`.is--counter--accounts`) and, when present, the limit
element (`span[data-limit]`), turns both raw strings into numbers with
`clean_number`, falls back to the default limit of 170000 when no usable
limit was read, and sends a Discord notification when the current count is
strictly below the limit. This project models that decision in Dafny
(module `Monitor` in `monitor.dfy`, with `Option` in `wrappers.dfy`):

- `CleanNumber` is `clean_number`: a falsy input (`None` or `""`) gives
  `None`; otherwise every non-digit character is deleted (`Digits`), and the
  remaining digits, if any, are read as a decimal integer (`DecimalValue`).
- `Decide` is the part of `check_serv00` after the browser session: which
  raw string is used for the current count and for the limit, the limit
  fallback, and the strict comparison. Its result is `Notify(current, limit)`,
  `Full(current, limit)` or `ParseFailure`.
- `Run` is a finite stretch of the daemon loop: successive checks, each made
  from scratch.

The program keeps no state between checks: there is no remembered state, no
suppression of repeated notifications, and no page-identity or "limit
reached" check. Every check that finds `current < limit` notifies again; the
model follows the code (`HistoryIrrelevant`, `RepeatedOpenNotifies`).

Assumptions: digits are the ASCII characters `'0'`..`'9'`. Raw values are
`Option<string>` (a DOM text content or attribute is a string or `None`), so
Python's `str(text)` is the identity here. A whitespace-only text is truthy
in Python, so it hides the `data-count` attribute and gives a parse failure
(`DecideWhitespaceExample`).

## Model

| member | source | states |
|---|---|---|
| `Monitor.CleanNumber` | monitor.py:21-28 | falsy input gives `None`; the result is `None` exactly when the input is absent or has no digit character; otherwise it is the positional decimal value of the input's digits in their original order |
| `Monitor.DigitsEmptyIff` | monitor.py:25-27 | deleting non-digits leaves the empty string exactly when the input has no digit |
| `Monitor.DigitsAppend` | monitor.py:25 | deleting non-digits distributes over concatenation, so the digits keep their order |
| `Monitor.DigitsOfDigitString` | monitor.py:25 | a string of digits only is left unchanged |
| `Monitor.SeparatorDropped` | monitor.py:22-25 | a non-digit separator between two digit groups is removed and the groups are joined |
| `Monitor.DecimalValueIsPositional` | monitor.py:28 | reading the digits left to right equals the sum of each digit times ten to the number of digits after it |
| `Monitor.OnlyDigitsMatter` | monitor.py:25-28 | two strings with the same digits parse to the same result |
| `Monitor.CleanNumberReadsDigits` | monitor.py:25-28 | a string whose digits are the decimal form of `n` parses as `n` |
| `Monitor.LeadingZeroVanishes` | monitor.py:28 | one leading zero does not change the value |
| `Monitor.LeadingZerosVanish` | monitor.py:28 | any number of leading zeros does not change the value |
| `Monitor.CleanNumberIgnoresLeadingZeros` | monitor.py:25-28 | a digit string parses to the same number with or without leading zeros |
| `Monitor.DecimalValueOfRender` | monitor.py:28 | reading the decimal form of `n` gives `n` |
| `Monitor.RenderOfDecimalValue` | monitor.py:28 | a digit string without a leading zero is the decimal form of its value |
| `Monitor.CleanNumberOfRender` | monitor.py:25-28 | idempotence through rendering: parsing the decimal form of a result gives the same result |
| `Monitor.CleanNumberSeparatorExample` | monitor.py:22 | `'170,000'` parses as 170000 |
| `Monitor.CleanNumberSignExample` | monitor.py:25 | `'-5'` parses as 5: the sign is dropped and results are never negative |
| `Monitor.CleanNumberLeadingZerosExample` | monitor.py:28 | `'007'` parses as 7 |
| `Monitor.CleanNumberNoneExamples` | monitor.py:23-27 | `None`, `''` and `'n/a'` parse as `None` |
| `Monitor.SelectCurrent` | monitor.py:87-91 | the current count's raw string is the element text when truthy, else the `data-count` attribute |
| `Monitor.SelectLimit` | monitor.py:95-98 | no limit element gives no raw limit; otherwise the text when truthy, else the `data-limit` attribute |
| `Monitor.EffectiveLimit` | monitor.py:104-108 | the limit is always positive: a parsed limit that is missing or 0 becomes 170000, any other is kept |
| `Monitor.Decide` | monitor.py:102-118 | parse failure exactly when the current count does not parse; `Notify` carries `current < limit`, `Full` carries `current >= limit`; the reported current is the parsed count and the reported limit is the effective limit (the parsed limit, or 170000 when it is missing or 0), always positive |
| `Monitor.NotifyIff` | monitor.py:111-116 | a notification is sent exactly when the current count parses and is strictly below the effective limit |
| `Monitor.EqualCountsAreFull` | monitor.py:114-118 | equal current and limit counts give `Full` |
| `Monitor.OneBelowLimitNotifies` | monitor.py:114-116 | a count one below the limit notifies |
| `Monitor.ParseFailureIgnoresLimit` | monitor.py:111-120 | an unparsed current count is a parse failure whatever the limit element holds |
| `Monitor.CurrentSourceRule` | monitor.py:87-91 | a truthy text makes the attribute irrelevant; a falsy text makes the check behave as if the attribute were the text |
| `Monitor.LimitFallback` | monitor.py:95-108 | a limit that is absent, unparsable or 0 decides exactly as a missing limit element, with limit 170000 |
| `Monitor.DecideOpenExample` | monitor.py:107-116 | `'169999'` with no limit element notifies with (169999, 170000) |
| `Monitor.DecideFullExample` | monitor.py:114-118 | `'170,000'` against a limit of `'170,000'` is `Full` |
| `Monitor.DecideAttributeExample` | monitor.py:87-108 | empty text reads `data-count`; a `data-limit` of `'0'` falls back to 170000 |
| `Monitor.DecideWhitespaceExample` | monitor.py:87-91 | whitespace text hides the attribute and gives a parse failure |
| `Monitor.Run` | monitor.py:136-138 | successive checks: one outcome per check, the i-th being the check of the i-th observation alone |
| `Monitor.HistoryIrrelevant` | monitor.py:136-138 | a check's outcome does not depend on earlier checks |
| `Monitor.RepeatedOpenNotifies` | monitor.py:136-138 | two consecutive checks that see free slots both notify; nothing suppresses the repeat |

## Left out

- Browser automation (Playwright launch, navigation, `wait_for_selector`, locators; monitor.py:60-100): foreign calls. Their results enter only as the optional raw strings and the limit element's presence.
- The selector timeout that ends a check early (monitor.py:75-80) and the catch-all handler (monitor.py:122-123): they absorb browser and network failures, and also the `ValueError` of `int()` described in the next line; in every such case the check ends without an outcome.
- The Discord webhook POST and its embed and timestamp (monitor.py:30-53): network I/O and wall-clock time. `Notify` carries the two numbers it would send.
- Environment configuration and the missing-webhook exit (monitor.py:9-13, 125-128): process plumbing.
- The infinite loop's scheduling and `time.sleep` (monitor.py:134-138): `Run` covers any finite number of checks, not timing.
- Console logging (all `print` calls, including the raw value printed on a parse failure).
- Monitor.CleanNumber: does not model the limit on the number of digits `int()` accepts (4300 digits by default in CPython 3.11 and later and in patched 3.7-3.10 releases, leading zeros included). Beyond it `int()` at monitor.py:28 raises `ValueError`, the catch-all at monitor.py:122-123 swallows it and the check has no outcome; the model returns the number. The limit depends on the interpreter version and on `sys.set_int_max_str_digits`, which is outside the source, so `CleanNumber` and `Decide` describe the unbounded parse.
- Unicode decimal digits: Python's `\D` and `int()` accept non-ASCII digits; the model treats only `'0'`..`'9'` as digits.
