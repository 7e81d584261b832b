# Crypto news analyzer: a verified model of its decision core

`crypto_news_analyzer.py` fetches a page of top headlines. It drops the
headlines it has already seen. It asks a chat model whether each remaining
headline about crypto or macro-economics moves prices up or down, and it
forwards strong verdicts to a Telegram chat. This project models the part of
the script that makes decisions, and proves what that part promises:

- **`reply_parser.dfy`** (`ReplyParser`) reads the model's free-text reply.
  - `ParseReply` is the loop over the reply's lines. It overwrites three
    locals and stops at the first confidence that `int()` rejects.
  - `ParseLines` states the same reading field by field: the last line that
    sets a field wins.
  - `AnalyzeEvent` is the `try`/`except` around the reading. A service failure
    or a malformed confidence becomes `("neutral", 50, "AI analysis failed: …")`.
- **`gate.dfy`** (`Gate`) holds the keyword relevance test and the
  if/elif/else gate, with the main path and the force-review path.
- **`timestamp.dfy`** (`Timestamp`) is the `publishedAt` reformat.
  - Reading follows CPython's `strptime` patterns for `%Y-%m-%dT%H:%M:%SZ`
    over ASCII digits, single-digit fields included, plus `datetime`'s range
    checks.
  - Printing follows `%Y-%m-%d %H:%M UTC`.
- **`sent_file.dfy`** (`SentFile`) is `sent_headlines.txt` as text.
  - Saving appends the title and a newline.
  - Loading reads with universal newlines, takes `readlines()` and keeps the
    set of stripped lines.
  - A missing file loads as the empty set.
- **`message.dfy`** (`Message`) is `format_result`: the arrow and the
  eight-line message.
- **`pipeline.dfy`** (`Pipeline`) is `fetch_news` over its module-level state.
  - The state is `SENT_HEADLINES`, `EVALUATED_HEADLINES`, the sent file, the
    classifier requests and the alerts sent.
  - `Process` and `Run` are the specification of one article and of a page.
  - The class `NewsAnalyzer` holds that state in fields. Its `FetchNews` and
    `HandleArticle` are the loop and its body, proved to follow `Run` and
    `Process`.
- **`text.dfy`** (`Text`) holds the Python string operations the core uses:
  - `str.strip` with Python's whitespace set;
  - ASCII `lower`/`upper`;
  - `split` and `join`;
  - `int()` on a string: an optional sign, ASCII digits with single `_`
    separators, and surrounding whitespace. The information separators
    `\x1c`–`\x1f` count as whitespace for `strip()`, but `int()` rejects a
    string that holds one anywhere.

Two things the source calls over the network are passed in as data:

- The chat model is a function from headline to `Reply`: either the reply
  text or a `ServiceError` with its message.
- The news service's answer is a `Feed`: a status and a list of articles.

The Telegram send is recorded as an `Alert` in the state. Its result is
ignored, as the source ignores it.

## Model

| member | source | states |
|---|---|---|
| ReplyParser.ParseReply | crypto_news_analyzer.py:60-73 | The line loop returns exactly the field-by-field reading `ParseContent`: each field comes from the last line that sets it, or keeps its default; the first confidence `int()` rejects ends the reading as malformed |
| ReplyParser.ParseLinesStep | crypto_news_analyzer.py:65-71 | One more line either fails the whole reading (a rejected confidence) or changes at most the one field it names |
| ReplyParser.ParseContent | crypto_news_analyzer.py:60-73 | The reading of a reply text: `ParseLines` over `content.split("\n")`. It has no contract of its own; `ParseReply` is proved to return it, and the line lemmas below state what it gives |
| ReplyParser.Analysis | crypto_news_analyzer.py:53-76 | The verdict `analyze_event_ai` returns for a service outcome. It has no contract of its own; `AnalyzeEvent` is proved to return it |
| ReplyParser.AnalyzeEvent | crypto_news_analyzer.py:53-76 | The returned triple is the parsed verdict, or the fallback `("neutral", 50, "AI analysis failed: " + reason)` for a service failure or a malformed confidence |
| ReplyParser.NoFieldLinesGiveDefaults | crypto_news_analyzer.py:61-73 | A reply with no line starting (in any case) with direction, confidence or explanation gives `("neutral", 50, "No explanation.")` |
| ReplyParser.LastDirectionLineWins | crypto_news_analyzer.py:66-67 | Of several direction lines the last decides the direction: its text after the last colon, stripped and lower-cased |
| ReplyParser.LastConfidenceLineWins | crypto_news_analyzer.py:68-69 | Of several confidence lines the last decides the confidence: `int()` of its text after the last colon, stripped, without `%` |
| ReplyParser.LastExplanationLineWins | crypto_news_analyzer.py:70-71 | Of several explanation lines the last decides the explanation: its text after the first colon, stripped |
| ReplyParser.MalformedConfidenceFails | crypto_news_analyzer.py:69-76 | One confidence line `int()` rejects, anywhere, discards every parsed field: the result is neutral, 50 and an explanation starting "AI analysis failed: ", naming the first such line |
| ReplyParser.InfoSeparatorConfidenceIsMalformed | crypto_news_analyzer.py:69 | A line such as "Confidence: 80\x1c%" is malformed: `strip()` would drop the separator, but `int()` rejects it, so the whole reply falls back |
| ReplyParser.SeparatedConfidenceIsMalformed | crypto_news_analyzer.py:69 | The same for any number text without a leading space, colon or `%`, followed by any of the separators `\x1c`–`\x1f` |
| ReplyParser.ServiceErrorFallsBack | crypto_news_analyzer.py:75-76 | A failing service call gives `("neutral", 50, "AI analysis failed: " + message)` |
| ReplyParser.RenderedReplyRoundTrip | crypto_news_analyzer.py:47-73 | A reply in the format the prompt requests is read back field for field, with the direction lower-cased |
| Text.ParseIntToString | crypto_news_analyzer.py:69 | `int()` reads back every printed integer, negative ones included |
| Text.ParseInt | crypto_news_analyzer.py:69 | `int()` of a string: `None` for any text holding `\x1c`–`\x1f`, otherwise the stripped text as an optional sign and ASCII digits with single `_` between digits. It has no contract of its own; `ParseIntToString`, `ParseIntSpaces` and `InfoSeparatorRejected` state its properties |
| Text.ParseIntSpaces | crypto_news_analyzer.py:69 | `int()` ignores whitespace around the number: any Python whitespace other than `\x1c`–`\x1f` |
| Text.InfoSeparatorRejected | crypto_news_analyzer.py:69 | Each of `\x1c`–`\x1f` is whitespace for `strip()`, yet any text holding one is rejected by `int()` |
| Text.Strip | crypto_news_analyzer.py:19 | `strip()` returns a piece no longer than its input, with no whitespace at either end |
| Text.Lower | crypto_news_analyzer.py:66 | `lower()` keeps the length |
| Text.LowerAt | crypto_news_analyzer.py:66 | Each character of `lower()` is the ASCII lower-case of the input character at that position |
| Text.StripIdentity | crypto_news_analyzer.py:19 | `strip()` leaves a string unchanged exactly when it has no surrounding whitespace |
| Text.AfterLastSuffix | crypto_news_analyzer.py:67 | `split(":")[-1]` is the text after the last colon |
| Text.AfterFirstPrefix | crypto_news_analyzer.py:71 | `split(":", 1)[-1]` is the text after the first colon |
| Gate.Decide | crypto_news_analyzer.py:131-142 | The main alert is taken exactly for up or down at 65 or more; a forced alert needs a force-review word in the lower-cased title, 60 or more and a non-neutral direction |
| Gate.IsRelevant | crypto_news_analyzer.py:127 | The keyword test, case-insensitive on both sides. It has no contract of its own; `RelevanceIgnoresCase` and `KeywordMakesRelevant` state its properties |
| Gate.Dispatches | crypto_news_analyzer.py:131-140 | Whether the gate sends the alert, with the literal force-review list. It has no contract of its own; `DispatchesIff` states it |
| Gate.DispatchesIff | crypto_news_analyzer.py:131-140 | An alert is sent if and only if the verdict is up or down at 65 or more, or it is not neutral, at 60 or more, and the headline mentions a special topic in any case |
| Gate.DecideDispatchesIff | crypto_news_analyzer.py:131-142 | A verdict is forwarded if and only if it meets the main-path condition or the force-review condition |
| Gate.GateFloor | crypto_news_analyzer.py:131-142 | No verdict below 60 is forwarded, whatever the title, the direction or the force-review words |
| Gate.NeutralNeverDispatches | crypto_news_analyzer.py:131-136 | A neutral verdict is forwarded on neither path |
| Gate.StrongVerdictDispatches | crypto_news_analyzer.py:131-132 | Every up or down verdict at 65 or more takes the main path, whatever the force-review words |
| Gate.ForcedPathAcceptsAnyLabel | crypto_news_analyzer.py:136-140 | With a force-review word, any non-neutral label at 60 or more is forwarded, even one that is neither up nor down |
| Gate.WithoutForceWordOnlyMainPath | crypto_news_analyzer.py:131-142 | Without a force-review word in the title, only the main path forwards |
| Gate.LowerWordsIgnoreCase | crypto_news_analyzer.py:136 | Testing already lower-case words against the lower-cased title is a case-insensitive test |
| Gate.ForceReviewIsLower | crypto_news_analyzer.py:88 | Every force-review word is lower-case |
| Gate.ForceReviewIgnoresCase | crypto_news_analyzer.py:136 | The force-review test ignores the case of the headline |
| Gate.RelevanceIgnoresCase | crypto_news_analyzer.py:127 | An upper-cased headline is relevant exactly when the headline is |
| Gate.KeywordMakesRelevant | crypto_news_analyzer.py:127 | A headline that contains any keyword (from the list at line 87) is relevant |
| Timestamp.ParseIso | crypto_news_analyzer.py:112 | Every date-time `strptime` returns is one `datetime` accepts: a month of 1 to 12, a day within the month (29 February only in a leap year), hours, minutes and seconds in range |
| Timestamp.ParseIsoOfIso | crypto_news_analyzer.py:112 | The zero-padded `YYYY-MM-DDTHH:MM:SSZ` text of a date-time parses back to it exactly when `datetime` accepts its values, and fails otherwise |
| Timestamp.TrailingTextRejected | crypto_news_analyzer.py:111-115 | Any text after a timestamp (after its `Z`) makes `strptime` fail, and the time shows as "Unknown time" |
| Timestamp.WrongSeparatorRejected | crypto_news_analyzer.py:111-115 | A text whose first run of digits and spaces is followed by any character other than a hyphen (a slash, a dot, a letter) is rejected, and the time shows as "Unknown time" |
| Timestamp.Display | crypto_news_analyzer.py:113 | The printed time has 20 characters |
| Timestamp.DisplayFields | crypto_news_analyzer.py:113 | The printed time holds the year, month, day, hour and minute as digit fields, in that order, between `-`, `-`, a space and `:`, and ends with " UTC" |
| Timestamp.DisplayOfIso | crypto_news_analyzer.py:113 | The printed time is the input text's date and hours and minutes, followed by " UTC" |
| Timestamp.ReformatDropsSeconds | crypto_news_analyzer.py:108-115 | A valid `YYYY-MM-DDTHH:MM:SSZ` value is shown as `YYYY-MM-DD HH:MM UTC`: the seconds are dropped |
| Timestamp.InvalidDateIsUnknown | crypto_news_analyzer.py:111-115 | A well-formed text whose date `datetime` rejects (30 February, second 60, month 0) shows as "Unknown time" |
| Timestamp.MissingIsUnknown | crypto_news_analyzer.py:108-115 | A missing value and the empty default both show as "Unknown time" |
| Timestamp.Reformat | crypto_news_analyzer.py:108-115 | "Unknown time" is shown if and only if the value is missing or does not parse |
| Timestamp.LenientFieldsAccepted | crypto_news_analyzer.py:112 | Single-digit fields, a space-padded day and lower-case `t` and `z` read as the same date-time as the zero-padded text |
| SentFile.Translate | crypto_news_analyzer.py:18 | Reading in text mode leaves no carriage return, and leaves a text without one unchanged |
| SentFile.TranslatePrefix | crypto_news_analyzer.py:18 | Text before the first carriage return is read unchanged |
| SentFile.TranslateCrLf | crypto_news_analyzer.py:18 | A `\r\n` pair is read as a single `\n` |
| SentFile.TranslateLoneCr | crypto_news_analyzer.py:18 | A `\r` not followed by `\n` is read as `\n` |
| SentFile.Load | crypto_news_analyzer.py:16-21 | The set `load_sent_headlines` returns. It has no contract of its own; `LoadSentHeadlines` is proved to return it, and the lemmas below state what it holds |
| SentFile.Save | crypto_news_analyzer.py:23-25 | After a save the file exists |
| SentFile.LoadSentHeadlines | crypto_news_analyzer.py:16-21 | The loop builds exactly the set of stripped lines of the file; a missing file gives the empty set |
| SentFile.SaveExtends | crypto_news_analyzer.py:23-25 | Saving appends the title and a newline to the saved text; a missing file is created holding just that |
| SentFile.MissingFileLikeEmpty | crypto_news_analyzer.py:16-25 | A missing file loads and saves like an empty one |
| SentFile.LoadOfSaves | crypto_news_analyzer.py:16-25 | A file written by saves of titles without line breaks loads as the set of those titles, stripped |
| SentFile.SaveThenLoad | crypto_news_analyzer.py:16-25 | After saving a title, the loaded set is the earlier set plus the stripped title |
| SentFile.LoadedEntriesAreTrimmed | crypto_news_analyzer.py:19 | Every loaded entry has no surrounding whitespace and no line break |
| SentFile.UntrimmedTitleNeverLoaded | crypto_news_analyzer.py:19 | A title with surrounding whitespace or a line break is never in a loaded set, whatever the file holds |
| SentFile.SavedTitleFoundIffTrimmed | crypto_news_analyzer.py:16-25 | A saved title comes back from the file if and only if it has no surrounding whitespace |
| Message.Arrow | crypto_news_analyzer.py:80 | Falling arrow exactly for "down", rising exactly for "up", the flat sign for anything else |
| Message.FormatResult | crypto_news_analyzer.py:81 | The message starts and ends with a newline |
| Message.MessageSplitsIntoLines | crypto_news_analyzer.py:81 | Without newlines in its parts, the message splits into its eight lines: an empty line, headline, time, banner, direction, confidence, explanation, an empty line |
| Message.DirectionLineShowsArrow | crypto_news_analyzer.py:80-81 | The direction line reads "Direction: UP" with the rising arrow for up, and "Direction: DOWN" with the falling arrow for down |
| Pipeline.Start | crypto_news_analyzer.py:27-28 | At start-up the sent set is what the file loads as; the evaluated set, the requests and the alerts are empty |
| Pipeline.Process | crypto_news_analyzer.py:106-142 | One article: a title already evaluated or sent changes nothing; otherwise it is marked evaluated. It is classified if and only if it is fresh and relevant. An alert is sent if and only if, in addition, the gate passes its verdict; the alert carries the formatted message, the title is appended to the file and added to the sent set |
| Pipeline.Forward | crypto_news_analyzer.py:131-139 | The state after an alert: the message is sent, the title saved and added to the sent set. It has no contract of its own; `Process` states its effect |
| Pipeline.Run | crypto_news_analyzer.py:106-142 | Over a page, the evaluated set, the sent set, the requests and the alerts only grow; every new request is for a title now evaluated |
| Pipeline.Cycle | crypto_news_analyzer.py:99-106 | `fetch_news` on a reply: a status other than "ok" changes nothing, otherwise `Run` over the articles. It has no contract of its own; `FetchNews` is proved to follow it |
| Pipeline.NewsAnalyzer.constructor | crypto_news_analyzer.py:27-28 | The fields start as `Start` of the stored file |
| Pipeline.NewsAnalyzer.FetchNews | crypto_news_analyzer.py:84-142 | A feed whose status is not "ok" leaves the state unchanged; otherwise the fields end as `Run` over the articles in order |
| Pipeline.NewsAnalyzer.HandleArticle | crypto_news_analyzer.py:107-142 | The fields after one loop iteration are `Process` of the fields before |
| Pipeline.RequestsAreFreshAndDistinct | crypto_news_analyzer.py:117-128 | Only relevant titles, not already evaluated or sent, reach the classifier, and no title is classified twice in a run |
| Pipeline.EvaluatedHeadlines | crypto_news_analyzer.py:117-125 | After a run the evaluated set is the earlier one plus every page title not already sent, relevant or not |
| Pipeline.AlertsPassGate | crypto_news_analyzer.py:127-142 | Every alert of a run is for a requested page title, carries the classifier's verdict and the formatted message, and passed the gate at 60 or more and not neutral |
| Pipeline.DispatchedMembers | crypto_news_analyzer.py:131-140 | A title is among the gate-passing requests exactly when it was requested and its verdict passes |
| Pipeline.AlertsFollowRequests | crypto_news_analyzer.py:127-140 | The alerts of a run are, in order, exactly the requested titles whose verdict the gate passes |
| Pipeline.RequestedHeadlines | crypto_news_analyzer.py:117-128 | A title is requested in a run if and only if it is on the page, was neither evaluated nor sent before the run, and is relevant |
| Pipeline.ForwardedIffGatePasses | crypto_news_analyzer.py:117-140 | A page title neither evaluated nor sent before the run is alerted if and only if it is relevant and the gate passes its verdict |
| Pipeline.SentFollowsAlerts | crypto_news_analyzer.py:131-139 | The sent set ends as the initial set plus exactly the alerted titles, and the file as the initial file with those titles saved in order |
| Pipeline.AlertTitlesDistinct | crypto_news_analyzer.py:117-139 | No title is alerted twice in a run, and none that was sent before it began |
| Pipeline.SentHeadlineSkipped | crypto_news_analyzer.py:121-123 | A title in the sent set at the start is never classified or alerted, and not marked evaluated |
| Pipeline.FreshRelevantRequested | crypto_news_analyzer.py:125-128 | A relevant title neither evaluated nor sent goes to the classifier |
| Pipeline.AlertIsRelevant | crypto_news_analyzer.py:127 | Every alerted title is relevant |
| Pipeline.RunFile | crypto_news_analyzer.py:23-25 | A run from a file of saved titles leaves the file holding those titles followed by the alerted ones |
| Pipeline.NextStartLoadsAlerts | crypto_news_analyzer.py:16-27 | The next start-up loads the earlier titles and the titles of this run's alerts, stripped |
| Pipeline.TrimmedAlertSkippedNextRun | crypto_news_analyzer.py:121-123 | After a restart, an alerted title without surrounding whitespace is skipped and changes nothing |
| Pipeline.PaddedAlertClassifiedNextRun | crypto_news_analyzer.py:117-128 | After a restart, an alerted title with surrounding whitespace is not recognised and is sent to the classifier again |

## Left out

- The HTTP calls to the news service, the chat model and Telegram are not modelled. The news reply is a `Feed` value, and the chat model is a function from headline to reply or failure. A Telegram send is an `Alert` appended to the state, and its success flag is not modelled because the source ignores it.
- Pipeline.Forward: an exception from the Telegram call is not modelled. In the source it ends the run before the title is saved or added to the sent set; in the model every send succeeds.
- The prompt text, the model name and the temperature are not modelled: they only shape the request.
- Every `print`, the environment variables, the API keys and the `__main__` entry point are left out. They have no behaviour to verify.
- The `status` and `articles` lookups on the feed are modelled; a reply that is not JSON, or an `articles` entry without a `title` key, is not.
- A `None` title is not modelled, because titles are strings. A `publishedAt` that is absent or not a string is `None`.
- The file is its text, `None` when missing. Encodings, permissions and I/O errors other than a missing file are not modelled.
- Text.Lower and Text.Upper fold ASCII letters only; Python's Unicode case mapping is not modelled.
- Text.ParseInt: reads ASCII digits only. The Unicode decimal digits `int()` also accepts and its limit of 4300 digits are not modelled.
- ReplyParser.IntError: the `ValueError` message quotes the text with plain single quotes. The escaping and quote choice of `repr`, and its truncation to 200 characters (`%.200R`), are not modelled.
- Timestamp.ParseIso: reads ASCII digits only. The Unicode decimal digits that the `\d` of `_strptime`'s patterns also matches are not modelled.
- Timestamp.Display prints the year with four digits. The C library prints years below 1000 without zero padding, which is not modelled.
- Concurrency between runs is not modelled. Two processes appending to the same file are outside the model.
- SentFile.SaveThenLoad, SentFile.LoadOfSaves and Pipeline.NextStartLoadsAlerts require titles without `\n` or `\r`. A title with a line break comes back as several lines. `SentFile.UntrimmedTitleNeverLoaded` covers that case: the title itself is never found.
