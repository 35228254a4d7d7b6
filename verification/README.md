# notify-signifai-zabbix in Dafny

A model of `send_signifai.py`, the Zabbix alert script that forwards a
Zabbix alert to the SignifAi collector. Zabbix calls the script with an
API key, a bugsnag key and an alert message. The message is built from a
template of `MACRO: value` lines.

The script does four things:

1. It parses the message into an insertion-ordered dict (`parse_zabbix_msg`).
2. It normalises that dict into a SignifAi event (`prepare_REST_event`), using:
   - the `ATTR_MAP`, `BARE_ATTRS` and `MORE_MAPS` tables;
   - the `zabbix/` name rewrite for other macros (`zabbix_key_to_signifai_key`);
   - the `EVENT.DATE` / `EVENT.TIME` conversion.
3. It connects with retries (`HTTP_connect`) and POSTs the event (`POST_data`).
4. It maps the outcome to an exit status (`main`).

Modules, one per file:

- `Wrappers` (`wrappers.dfy`): `Option`, and a `Result` that carries the raised exception.
- `Text` (`text.dfy`): the Python string built-ins the script uses, over ASCII: `strip`, `upper`, `lower`, `split`, `split(sep, 1)` and `int()`.
- `Fields` (`fields.dfy`): Python's insertion-ordered `dict` of strings, with `d[k] = v`, `pop` and `items()`.
- `Template` (`template.dfy`): `parse_zabbix_msg`.
- `KeyRewrite` (`keys.dfy`): `zabbix_key_to_signifai_key`.
- `Calendar` (`calendar.dfy`): the `EVENT.DATE` and `EVENT.TIME` conversions. These are `split`, `int()`, then `datetime(...)` or `time(...)`, with their `ValueError` and `OverflowError` cases.
- `Normalizer` (`normalizer.dfy`): `prepare_REST_event`.
  - Each field is classified once into an `Effect`, which is the body of the `for k, v in parsed_data.items()` loop.
  - The loop is a fold over the effects.
  - The theorems relate the result to the input dict directly.
- `Delivery` (`delivery.dfy`): `HTTP_connect` and `POST_data`, over a scripted network.
  - A script gives the outcome of each pass of the connect loop, and the outcome of the single POST exchange.
  - The result is `Delivered` / `Failed` / `Undecided` / `Raised`. These stand for `True`, `False` and `None`, or an exception escaping.
- `Cli` (`main.dfy`): `main(argv)` as a function from the arguments and the network script to the request sent and the exit.

Where the code and its documentation or tests disagree, the model follows
the code:

- A date is split on `.`: `YYYY.MM.DD`, as the Zabbix macro gives it. A dashed
  date such as `2018-01-14`, which the tests' sample event uses, is one
  piece. It is silently ignored and the event gets the current time
  (`Normalizer.DashedDateIsNow`). The two tests that expect a dashed date to
  be used (`test_date_without_time`, `test_best_case`) do not match the code.
- A `connect()` failure other than a timeout is retried like a timeout,
  but the client is not closed.
- If building the connection object fails on a later pass, the loop
  breaks out. `HTTP_connect` then returns the previous pass's client,
  whose `connect()` had failed, and `POST_data` goes on to use it
  (`Delivery.ConnectCreateFailsLater`).
- `datetime(...)` and `time(...)` raise `OverflowError` for a part outside
  the C `int` range. `prepare_REST_event` does not catch it, and neither
  does `main`, so such an alert crashes the script instead of being
  rejected with status 1 (`Cli.RejectedNotPosted`).
- Keys are not stripped, only values are: in `Host : x` the key is
  `Host ` with its trailing space.
- `main` posts the bare event (send_signifai.py:350). The collector's
  format and the POST tests wrap events as `{"events": [...]}`. The
  model follows the code: the request body is the event itself
  (`Cli.PostedWithChosenKey`).

## Model

| member | source | states |
|---|---|---|
| Text.Strip | send_signifai.py:232 | `str.strip()` never lengthens its input and leaves no whitespace at either end; text already without edge whitespace is returned as it is, and all-whitespace text becomes empty |
| Text.StripRemovesEdgeSpaces | send_signifai.py:232 | the result of `str.strip()` is one contiguous stretch of its input, with only whitespace before and after it |
| Text.StripLeadingSpace | send_signifai.py:225-232 | the single space after a `key:` colon is removed by the strip, leaving a trimmed value as it was |
| Text.Split | send_signifai.py:219 | `str.split("\n")` yields at least one piece, no piece contains the separator, and joining the pieces with the separator gives back the input |
| Text.SplitJoin | send_signifai.py:219 | splitting a join of separator-free pieces gives back exactly those pieces |
| Text.SplitFirst | send_signifai.py:225 | `split(":", 1)` fails exactly when there is no colon, and otherwise cuts at the first colon: a colon-free head, the colon, then the rest |
| Text.ParseInt | send_signifai.py:274 | `int()` succeeds exactly on an optional sign followed by one or more digits, once surrounding whitespace is stripped |
| Text.ParseIntString | send_signifai.py:274 | `int()` reads back the decimal rendering of every integer |
| Text.ParseIntSpelled | send_signifai.py:274 | `int()` reads a sign, any number of leading zeros and the digits of `m`, surrounded by whitespace, as `m` with that sign |
| Text.ParseIntReadsSpelling | send_signifai.py:274 | every string `int()` accepts is such a spelling, and its value is the one the spelling names |
| Text.Upper | send_signifai.py:262 | `str.upper()` maps each lower-case ASCII letter to its capital and keeps every other character |
| Text.Lower | send_signifai.py:238 | `str.lower()` maps each capital ASCII letter to its lower-case letter and keeps every other character |
| Template.ReadLine | send_signifai.py:225-232 | a line is a `key: value` entry exactly when it contains a colon; the key is the colon-free text before the first colon and the value is the stripped text after it; a colon-free line is kept stripped, as a continuation |
| Template.ReadLineEntry | send_signifai.py:225-232 | a line `k:rest` with a colon-free `k` is the entry `k` with the stripped `rest` |
| Template.Run | send_signifai.py:223-232 | as long as the loop has not raised, a set `last_key` is a key of the dict being built, so `ret[last_key] +=` never looks up a missing key |
| Template.Step | send_signifai.py:224-232 | one loop pass fails exactly on a colon-free line when `last_key` is unset or the empty string; an entry sets `last_key`, a continuation keeps it; `last_key` always names a key of the dict |
| Template.ParseZabbixMsg | send_signifai.py:218-234 | a successful parse yields a proper dict: each key once, listed exactly when it holds a value |
| Template.ParseFailsIff | send_signifai.py:223-229 | parsing fails exactly when some colon-free line has no colon line above it, or the nearest colon line above it has the empty key |
| Template.ParseLastKey | send_signifai.py:220-231 | while parsing succeeds, `last_key` is the key of the last line so far that had a colon |
| Template.ParseKeys | send_signifai.py:221-232 | the result's keys are the keys of the colon lines, each at the position of its first occurrence, and no others |
| Template.ParseValue | send_signifai.py:229-232 | the value under a key is the stripped value of the last line with that key, followed by `"\n"` plus each stripped continuation line directly below it |
| Template.ValueContinued | send_signifai.py:229 | a colon-free line adds `"\n"` and its stripped text to the value of the nearest key above it |
| Template.ValueUntouched | send_signifai.py:229-232 | a line that neither repeats a key nor continues it leaves that key's value alone |
| Template.ParseEmptyFails | send_signifai.py:219-228 | the empty message is one empty line with no key before it, so it is rejected |
| Template.FirstLineWithoutColonFails | test_send_signifai.py:311-319 | a message whose first line has no colon is rejected, whatever follows |
| Template.ParseJoined | send_signifai.py:219 | a message of newline-free lines joined by `"\n"` is parsed line by line |
| Template.ParseTwoEntries | test_send_signifai.py:321-324 | `k1: v1\nk2: v2` with distinct keys parses to `{k1: v1, k2: v2}` in that order |
| Template.ParseContinuedValue | test_send_signifai.py:326-332 | a third line without a colon is appended to the second value after a newline |
| KeyRewrite.Replace | send_signifai.py:247 | `str.replace` with a one-character pattern leaves no pattern character when the replacement has none, and introduces only characters of the input or the replacement |
| KeyRewrite.ZabbixKeyToSignifaiKey | send_signifai.py:237-249 | the converted key is the per-character rewrite of the key, and has no dot, space, parenthesis or upper-case letter |
| KeyRewrite.ReplacementsRewriteEachChar | send_signifai.py:238-249 | the four replacements applied in order to the lower-cased key equal an independent per-character rewrite: `.` to `/`, space to `_`, parentheses dropped, upper-case letters lowered |
| KeyRewrite.ReplaceAllAppend | send_signifai.py:246-247 | the replacement loop distributes over concatenation |
| KeyRewrite.KeyIdempotent | send_signifai.py:237-249 | converting a converted key changes nothing |
| KeyRewrite.KeyOfDotted | send_signifai.py:238-247 | `A.B` with plain words becomes `a/b` |
| KeyRewrite.KeyOfSpaced | send_signifai.py:238-247 | `K B C` with plain `B`, `C` becomes the conversion of `K`, then `_b_c` |
| KeyRewrite.KeyExampleDotted | test_send_signifai.py:428-436 | `AWESOME.ATTR` becomes `awesome/attr` |
| KeyRewrite.KeyExampleSpaced | test_send_signifai.py:428-437 | `AWESOME.ATTR WITH SPACES` becomes `awesome/attr_with_spaces` |
| Calendar.ReadTriple | send_signifai.py:273-274 | the unpacking succeeds exactly when the split gives three pieces that all pass `int()`, and yields their values |
| Calendar.MakeDate | send_signifai.py:274 | `datetime(y, m, d)` overflows exactly when a part is outside the C `int` range; otherwise it converts exactly when the date is real (years 1..9999, month lengths, leap years) |
| Calendar.MakeTime | send_signifai.py:280-282 | `time(h, m, s)` overflows exactly when a part is outside the C `int` range; otherwise it converts exactly when 0<=h<24, 0<=m<60, 0<=s<60 |
| Calendar.ParseDate | send_signifai.py:271-276 | a converted `EVENT.DATE` is a real date; an overflow comes only from three integers that do not fit a C `int` |
| Calendar.ParseTime | send_signifai.py:277-284 | a converted `EVENT.TIME` is a real time of day; an overflow comes only from three integers that do not fit a C `int` |
| Calendar.ParseDateRendered | send_signifai.py:271-276 | for any three integers written `a.b.c`: overflow if one does not fit a C `int`, that date if it is real, ignored otherwise |
| Calendar.ParseTimeRendered | send_signifai.py:277-284 | for any three integers written `a:b:c`: overflow if one does not fit a C `int`, that time if it is real, ignored otherwise |
| Calendar.DateRoundTrip | send_signifai.py:273-274 | every real date converts back from its `Y.M.D` rendering |
| Calendar.TimeRoundTrip | send_signifai.py:279-282 | every real time converts back from its `H:M:S` rendering |
| Calendar.UndottedDateRejected | send_signifai.py:273-276 | a date with no dot, such as `2018-01-14`, is ignored |
| Calendar.DateNeedsThreePieces | send_signifai.py:273-276 | a date that does not split into exactly three pieces is ignored |
| Calendar.LeapDay | send_signifai.py:274 | February 29th of a year in range converts exactly in leap years |
| Calendar.ReadPieces | send_signifai.py:273-274 | three separator-free pieces joined by the separator split back into exactly those pieces |
| Calendar.PaddedReads | send_signifai.py:274 | a number written with leading zeros is all digits and `int()` reads it back |
| Calendar.ZabbixDateRoundTrip | send_signifai.py:271-276 | every real date converts back from its zero-padded `YYYY.MM.DD` spelling |
| Calendar.ZabbixTimeRoundTrip | send_signifai.py:277-284 | every real time converts back from its zero-padded `HH:MM:SS` spelling |
| Calendar.TwoDigitTime | send_signifai.py:277-284 | an eight-character `HH:MM:SS` made of the two digits of each part converts to that time |
| Calendar.TestTimeConverts | test_send_signifai.py:365 | `02:31:00` converts to 2:31:00 |
| Calendar.DottedDateConverts | send_signifai.py:271-276 | `2018.01.14` converts to 14 January 2018 |
| Normalizer.Classify | send_signifai.py:258-291 | a field's effect: `ATTR_MAP` macros write their destination or raise; only `EVENT.DATE` sets the date and only `EVENT.TIME` the time; exactly the other macros, `_API_KEY` aside, write their `zabbix/` name with the untranslated value; nothing raises the missing-macro error |
| Normalizer.Apply | send_signifai.py:257-291 | one loop pass raises exactly for a raising field, with its exception; otherwise a mapped macro leaves `missing`, the date and time change only for their macros, a write lands in `attributes` or at the top by its name (extras always in `attributes`), and every other field is unchanged |
| Normalizer.Finish | send_signifai.py:293-308 | the result is an error exactly when macros are missing, and the error lists them; otherwise the gathered objects are passed through, `event_source` is `zabbix`, and the timestamp is "now" exactly when no date was gathered |
| Normalizer.RunError | send_signifai.py:257-291 | the loop stops exactly when some effect raises, and the exception is the first raising effect's |
| Normalizer.RunState | send_signifai.py:254-284 | after the loop, `missing` is `ATTR_MAP`'s keys less the mapped macros seen, and the date and time are the last ones set |
| Normalizer.RunWrites | send_signifai.py:266-291 | each field name holds the value written to it last; `attributes` gets exactly the names with a `/` or in `BARE_ATTRS`, and the top level the rest |
| Normalizer.LastWriteFrom | send_signifai.py:257-291 | a name holds a value exactly when some field wrote it |
| Normalizer.AttrMapInjective | send_signifai.py:49-57 | no two mapped macros share a destination |
| Normalizer.DestinationsPlaced | send_signifai.py:49-58 | `application`, `event_description`, `value` and `host` go to the top level; `annotations/description`, `state` and `alert/condition` go under `attributes` |
| Normalizer.ClassifyError | send_signifai.py:258-284 | a field raises exactly the exception named per field: a `KeyError` for a status or severity with no `MORE_MAPS` entry, an overflow for a date or time part outside the C `int` range |
| Normalizer.ClassifyMapped | send_signifai.py:258-269 | a mapped macro that does not raise writes its destination with its value, translated for status and severity |
| Normalizer.ClassifyDate | send_signifai.py:271-276 | `EVENT.DATE` sets the date exactly when its value converts |
| Normalizer.ClassifyTime | send_signifai.py:277-284 | `EVENT.TIME` sets the time exactly when its value converts |
| Normalizer.RunErrorOf | send_signifai.py:257-291 | the loop raises exactly when some field of the dict raises |
| Normalizer.PrepareRestEvent | send_signifai.py:252-309 | an event is returned exactly when no field raises and every `ATTR_MAP` macro is present, and it carries `event_source` `zabbix` |
| Normalizer.PrepareFirstError | send_signifai.py:257-291 | an exception raised during the loop is that of the first field in `items()` order that raises |
| Normalizer.PrepareMissing | send_signifai.py:254-305 | when no field raises, the call fails exactly when a macro is missing, with exactly the absent macros |
| Normalizer.MissingOnlyWithoutError | send_signifai.py:257-305 | the missing-macro error is raised only when no field raised first |
| Normalizer.PrepareMapped | send_signifai.py:258-269 | in a returned event, every `ATTR_MAP` macro was present and its destination holds its translated value, at the top level or under `attributes` |
| Normalizer.PrepareTopFieldsPresent | send_signifai.py:266-269 | a returned event has all four top-level fields |
| Normalizer.PrepareTopFieldsOnly | send_signifai.py:266-291 | nothing but those four fields reaches the top level |
| Normalizer.PrepareAttributesOnly | send_signifai.py:266-291 | nothing reaches `attributes` but the three mapped names and `zabbix/` names, so `EVENT.DATE`, `EVENT.TIME` and `_API_KEY` never appear there |
| Normalizer.ExtraWrites | send_signifai.py:288-291 | `zabbix/t` holds the value of the last macro, among those read so far, that rewrites to `t` |
| Normalizer.PrepareExtras | send_signifai.py:288-291 | in a returned event, `attributes["zabbix/" + t]` holds the value of the last other macro whose key converts to `t`, and is absent when there is none |
| Normalizer.PrepareExtra | send_signifai.py:288-291 | a macro whose converted key no other macro shares keeps its value under `zabbix/` plus that key |
| Normalizer.LoopDate | send_signifai.py:271-276 | the loop's date is `EVENT.DATE`'s when present and convertible, else none |
| Normalizer.LoopTime | send_signifai.py:277-284 | the loop's time is `EVENT.TIME`'s when present and convertible, else none |
| Normalizer.PrepareTimestamp | send_signifai.py:293-301 | the timestamp is now when no usable date was given; otherwise it is the given date at the given time, or at midnight |
| Normalizer.OnlyTimeIsMissingAll | send_signifai.py:252-305 | a dict holding only an `EVENT.TIME` that does not overflow fails with every `ATTR_MAP` macro missing |
| Normalizer.BasicFailureExample | test_send_signifai.py:376-378 | `{"EVENT.TIME": "03:23:00"}` fails with every `ATTR_MAP` macro missing |
| Normalizer.UnmappedValueRaises | test_send_signifai.py:380-390 | a status or severity `MORE_MAPS` cannot translate makes the call raise something other than the missing-macro error |
| Normalizer.TestValuesUnmapped | test_send_signifai.py:380-390 | `Unknown` is not a status and `-1` is not a severity, once upper-cased |
| Normalizer.DashedDateIsNow | test_send_signifai.py:408-419 | a dashed date leaves the event stamped with the current time |
| Normalizer.ExtraAttributeExample | test_send_signifai.py:421-438 | `AWESOME.ATTR` lands under `attributes` as `zabbix/awesome/attr` with its value |
| Fields.Put | send_signifai.py:267-291 | `d[k] = v` sets `k`, keeps every other key, keeps an existing key's position and appends a new one |
| Fields.Items | send_signifai.py:257 | `items()` lists each key in order, paired with its value |
| Fields.Remove | send_signifai.py:335-336 | `pop` removes the key, keeps the other values and the order of the rest |
| Delivery.ConnectFrom | send_signifai.py:97-121 | the loop builds at most one object per pass and calls `connect()` at most once per object; an open client comes from a pass whose `connect()` succeeded |
| Delivery.HttpConnect | send_signifai.py:93-124 | at most `attempts` objects are built; an open client was returned by a successful `connect()` |
| Delivery.FirstStop | send_signifai.py:97-121 | the first pass that neither times out nor fails to connect, or the end |
| Delivery.ConnectIsExpected | send_signifai.py:93-124 | on every script, `HTTP_connect` equals the first-stop account: no client when every pass retried; an open client at a successful `connect()`; no client when the first construction fails; the previous pass's unusable client when a later one fails |
| Delivery.ConnectExhausted | test_send_signifai.py:71-94 | when every pass retries, all `attempts` passes call `connect()` and no client is returned |
| Delivery.ConnectCreateFailsFirst | test_send_signifai.py:62-69 | a failing constructor on the first pass stops the loop after one construction, with no client |
| Delivery.ConnectCreateFailsLater | send_signifai.py:102-107 | a failing constructor on a later pass returns the previous pass's client, which is not open |
| Delivery.ConnectSucceedsAfter | test_send_signifai.py:96-125 | after `k` retried passes, a successful `connect()` gives an open client after `k + 1` calls |
| Delivery.OpenClientMeansConnected | send_signifai.py:97-124 | a returned client comes from a pass within `attempts`, every pass before it retried, and it is open exactly when its own `connect()` succeeded |
| Delivery.PostData | send_signifai.py:127-164 | a request is sent exactly when a client was obtained, and otherwise the result is `False`; the request is a POST to the given path, with the bearer key and JSON headers, carrying the data |
| Delivery.Judge | send_signifai.py:178-204 | a read 2xx body is delivered exactly when `success` is true and `failed_events` is empty; not JSON is `False`; not an object or a missing key raises; the rest is `None` |
| Delivery.Answer | send_signifai.py:163-214 | for each verdict, the exchanges that give it: timeouts, transport errors and read non-2xx answers give `False`; an unreadable 2xx body gives `None` on `IOError`; other read errors raise; a read 2xx body is judged |
| Delivery.DeliveredIff | send_signifai.py:149-206 | `True` exactly when connected and the answer is 2xx with a JSON object whose `success` is true and whose `failed_events` is empty |
| Delivery.RaisedIff | send_signifai.py:163-214 | an exception escapes exactly when the answer was received and then: a 2xx body fails to read with an `HTTPException`, is not a JSON object, or lacks `success` or `failed_events`; or a non-2xx body fails to read |
| Delivery.UndecidedIff | send_signifai.py:178-206 | `None` exactly when a 2xx body fails to read with `IOError`, or reports failure or failed events |
| Delivery.FailedIff | send_signifai.py:149-214 | `False` exactly when there is no client, the request or response raises a timeout or transport error, a non-2xx answer was read, or a 2xx answer is not JSON |
| Cli.ExitFor | send_signifai.py:350-354 | status 0 exactly for `True`; a crash exactly when `POST_data` raised |
| Cli.MessageFields | send_signifai.py:334-336 | the dict handed to `prepare_REST_event` is proper and has no `_API_KEY` |
| Cli.Execute | send_signifai.py:312-354 | fewer than four arguments give status 1 and nothing sent; status 0 only after a request is sent; every request is a POST to `/v1/incidents` |
| Cli.ExitZeroIff | send_signifai.py:312-354 | `main` returns 0 exactly when the message parses, no field raises, all `ATTR_MAP` macros are present, a client is obtained, and the collector reports success with no failed events |
| Cli.RejectedNotPosted | send_signifai.py:333-343 | a message that does not parse or normalise is never posted; it gives status 1, except that an overflowing date or time part crashes |
| Cli.PostedWithChosenKey | send_signifai.py:333-350 | a posted request carries the event made from the message less `_API_KEY`, authorised with the message's `_API_KEY` if present, else the command-line key |
| Cli.CommandLineKeyByDefault | send_signifai.py:317-350 | without a `_API_KEY` field the command-line key is used |

## Left out

- Logging, `print`, and the bugsnag reports and configuration are side effects that never change a return value.
- Sockets, TLS and DNS are replaced by a script of outcomes. Exceptions other than those the code names are not modelled, such as a non-`HTTPException` error from the connection constructor.
- JSON is not modelled. `json.dumps` of the event is the event itself. A reply is abstracted to "not JSON", "not an object", or the presence and truth of `success` and `failed_events`.
- The clock, the time zone and `time.mktime`: the timestamp is `Now` or a local date and time. The conversion to epoch seconds, and its platform range errors, are not modelled.
- `int()` is modelled on ASCII: optional sign, digits, surrounding whitespace. Underscores and non-ASCII digits are not modelled.
- `strip`, `upper` and `lower` are modelled on ASCII only.
- `strip` follows Python 3, which also strips the separators 0x1C-0x1F. Under Python 2, which the script also supports through its `httplib` fallback, `str.strip()` keeps them. The Python 2 behaviour is not modelled. Likewise `items()` is iterated in insertion order, as in Python 3.6 and later; under Python 2.7 the plain dict is iterated in hash order, which would change which field `Normalizer.PrepareFirstError` reports and which macro wins a `zabbix/` name shared by two keys in `Normalizer.PrepareExtras`.
- `sys.argv` and `sys.exit`: `main` takes `argv` and returns the exit. An uncaught exception is `Crash`, not Python's status 1 with a traceback.
- `argv.pop(0)` mutates the caller's list. Only the values read are modelled.
- Delivery.HttpConnect: the network script must cover at least `attempts` passes. This is a property of the modelled environment, not a demand of the source.
- Template.ParseZabbixMsg: `parse_zabbix_msg` raises `ValueError("Invalid template")` for a colon-free line in two cases: no earlier key, or an empty earlier key. The model reports both as the one error `InvalidTemplate`, with no message text, so the two cases are not told apart.
- `test_best_case` and the dashed `EVENT.DATE` of the tests' sample event do not match the code (see above). The model follows the code.
