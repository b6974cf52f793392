# Log error analyzer — a verified model of the analysis pipeline

This project models, in Dafny, the pipeline that turns an uploaded
WildFly/JBoss-style log file into classified events, clusters of
unclassified errors and an incident summary:

- `log_parser.dfy` (module `LogParser`) covers line cleaning and parsing.
  `clean_line` removes ANSI CSI colour codes left to right, then strips
  whitespace. `LOG_PATTERN` is written as a deterministic matcher anchored at
  one position (`MatchPrefix`). A declarative statement of what the pattern
  matches (`Matches`) sits beside it, and `Search` takes the earliest
  position at which the pattern matches. `parse_logs` is the filter-map loop
  `ParseLogs` over the lines of the file.
- `error_classifier.dfy` (module `ErrorClassifier`) covers `classify_error`.
  It is an ordered keyword rule on the lower-cased message.
- `ml_cluster.dfy` (module `MlCluster`) covers `cluster_unknown_errors`: the
  threshold and the order-preserving group-by-label loop over a map. The
  TF-IDF/k-means clusterer is a parameter. It either raises (`None`) or
  gives each message one label below the number of clusters.
- `llm_summary.dfy` (module `LlmSummary`) covers `generate_incident_summary`:
  - the severity counts;
  - the fixed fallback report;
  - the rule that chooses between the fallback and the language model;
  - the first-50 context given to the model.

  Whether the client library is installed, the API key and the outcome of
  the chat request are parameters.
- `api.py` lines 27–69 become `api.dfy` (module `Api`), the body of
  `analyze_log`:
  - one loop over the first 5000 parsed logs that builds the entries and
    collects the unclassified error messages;
  - clustering only when that list is non-empty;
  - conversion of the cluster keys to decimal strings;
  - the summary over the same capped entries.

  `assign_severity` (from `severity.py`) is an uninterpreted function
  parameter.
- `text.dfy` (module `Text`) holds the Python string built-ins the code
  calls:
  - `str.isspace`, `str.lower`, `str.strip`;
  - the `in` substring test;
  - `"\n".join`;
  - `str(n)` for non-negative integers.

  It also holds helpers that exist only to state properties: splitting a
  text into lines (`SplitLines`) and reading a decimal string back as a
  number (`DecimalValue`). `LlmSummary.ContextLines`,
  `LlmSummary.ReportTextLines` and the key round trip
  `Api.StringKeysRoundTrip` use them. The code itself never splits a text
  or parses a number from a string.
- `records.dfy` (module `Records`) holds the event and entry records.
- `wrappers.dfy` (module `Wrappers`) holds `Option`, a generic map and a
  generic filter-map.

The level of an event is the datatype `Level`, so "the level is one of
INFO/WARN/ERROR/DEBUG" holds by construction. The same goes for the five
categories of `Category`.

A failure of the clusterer follows the code. Nothing between the call of
`cluster_unknown_errors` (api.py:54-58) and the end of the `try` block
catches its exception. The `except Exception` at api.py:77, inside
`analyze_log`, catches it and raises an `HTTPException` with status 500 in
its place (api.py:82-85), so no analysis is returned. In the model,
`Api.AnalyzeParsed` returns `None` in that case. Other failures (a failing
`open`, a reply without text) are listed under "Left out".

## Model

| member | source | states |
|---|---|---|
| `LogParser.CsiLength` | log_parser.py:21 | The length of the control sequence at the start of the string: ESC, '[', parameter bytes 0x30–0x3F, intermediate bytes 0x20–0x2F and one final byte 0x40–0x7E. No other prefix is one, and `None` means no prefix is. |
| `LogParser.RemoveCsi` | log_parser.py:21 | `ansi_escape.sub("", line)`. No ensures of its own; the scan steps are stated by `RemoveCsiKeep`, `RemoveCsiKeepEsc` and `RemoveCsiDrop`, and the result by `RemoveCsiSubsequence`, `RemoveCsiPrefix`, `RemoveCsiPlain` and `RemoveCsiNoEscape`. |
| `LogParser.RemoveCsiSubsequence` | log_parser.py:21 | The colour-code removal keeps a subsequence of its input. |
| `LogParser.CsiLengthOfCsi` | log_parser.py:21 | A string that starts with a whole control sequence is recognised as starting with exactly that sequence. |
| `LogParser.RemoveCsiKeep` | log_parser.py:21 | A character other than ESC at the scan position is kept, and the scan goes on after it. |
| `LogParser.RemoveCsiKeepEsc` | log_parser.py:21 | An ESC that starts no control sequence is kept, and the scan goes on after it. |
| `LogParser.RemoveCsiDrop` | log_parser.py:21 | A control sequence at the scan position is dropped whole, and the scan goes on after it. |
| `LogParser.RemoveCsiPrefix` | log_parser.py:21 | ESC-free text at the front comes through unchanged. |
| `LogParser.RemoveCsiPlain` | log_parser.py:21 | ESC-free text followed by a control sequence: the text is kept, the sequence is removed, and the rest is scanned on. |
| `LogParser.RemoveCsiNoEscape` | log_parser.py:21 | A string without ESC passes through the substitution unchanged. |
| `LogParser.CleanLine` | log_parser.py:17-22 | `clean_line`. No ensures of its own; see `CleanLineShape`, `CleanLineNoEscape`, `CleanLineColoured` and `CleanLineNotIdempotent`. |
| `LogParser.CleanLineShape` | log_parser.py:17-22 | The cleaned line has no leading or trailing whitespace. It is a subsequence of the raw line, so it is never longer. |
| `LogParser.CleanLineNoEscape` | log_parser.py:21-22 | Without ESC characters, cleaning only strips. |
| `LogParser.CleanLineColoured` | log_parser.py:17-22 | ESC-free text between two control sequences cleans to the stripped text. |
| `LogParser.CleanLineNotIdempotent` | log_parser.py:21-22 | ESC ESC `[m[m` cleans to ESC `[m`, and that cleans to the empty string, so cleaning is not idempotent. |
| `LogParser.RemoveCsiNewline` | log_parser.py:21 | A trailing newline passes through the substitution, since no control sequence contains one. |
| `LogParser.LineEventNewline` | log_parser.py:32-33 | The line terminator that file iteration leaves on a line does not change what the line yields. |
| `LogParser.TimestampEnd` | log_parser.py:5 | Where the timestamp group ends. The prefix up to there has the shape date, whitespace, `dd:dd:dd,`, digits. |
| `LogParser.LevelAt` | log_parser.py:7 | The level word at a position: `Some(l)` exactly when the name of `l` occurs there, so at most one level matches. |
| `LogParser.MatchPrefix` | log_parser.py:3-14 | `LOG_PATTERN.match` at the start of a text. No ensures of its own; `MatchPrefixSound`, `MatchPrefixComplete` and `MatchPrefixCorrect` tie it to the declarative `Matches`. |
| `LogParser.MatchPrefixSound` | log_parser.py:3-14 | Whatever the anchored matcher returns is a match of the pattern. |
| `LogParser.MatchPrefixComplete` | log_parser.py:3-14 | Every match of the pattern at the start of a line is the one the matcher returns. |
| `LogParser.MatchPrefixCorrect` | log_parser.py:3-14 | The matcher returns `ev` if and only if the pattern matches with groups `ev`, so the groups are unique. |
| `LogParser.MessageIsRemainder` | log_parser.py:9-11 | On a line without newlines, the message is the whole remainder after the `]` that closes the component, leading spaces included. |
| `LogParser.ParsedEventsWellFormed` | log_parser.py:5-11 | Every event has a timestamp of the pattern's shape, a non-empty component without `]`, and a non-empty message without a newline. |
| `LogParser.StartsAtIff` | log_parser.py:37 | The matcher succeeds at a position exactly when a match of the pattern starts there. |
| `LogParser.FirstMatchFrom` | log_parser.py:37 | The first position at or after `i` where the matcher succeeds. It succeeds at none before, and at none at all when the result is `None`. |
| `LogParser.Search` | log_parser.py:37 | `LOG_PATTERN.search`. No ensures of its own; see `SearchSome` and `SearchNone`. |
| `LogParser.SearchSome` | log_parser.py:37-39 | `search` yields `ev` exactly when `ev` is matched at the earliest position where any match starts. |
| `LogParser.SearchNone` | log_parser.py:37-39 | `search` yields nothing exactly when no match starts anywhere in the line. |
| `LogParser.LineEvent` | log_parser.py:32-39 | What one line of the file contributes. No ensures of its own; see `BlankLineSkipped`, `LineEventSome` and `LineEventNewline`. |
| `LogParser.BlankLineSkipped` | log_parser.py:33-35 | A line that cleans to the empty string yields no event. |
| `LogParser.LineEventSome` | log_parser.py:33-39 | A raw line yields `ev` exactly when `ev` is the earliest match in the cleaned line. |
| `LogParser.ParseLogs` | log_parser.py:25-52 | The loop's result equals the filter-map of the per-line events over all lines. |
| `LogParser.ParsedEventsSources` | log_parser.py:32-50 | There is at most one event per line. Each event comes from the line its source index names, the sources increase, and every line that yields an event is among them. |
| `Records.LevelName` | log_parser.py:7 | The level token is at least four characters long and starts with an upper-case letter. |
| `Records.LevelNameUpperCase` | log_parser.py:7 | Every character of a level token is an upper-case letter, and different levels have different tokens. |
| `Text.Lower` | error_classifier.py:2 | Lower-casing keeps the length and maps each character on its own. |
| `Text.LowerIdempotent` | error_classifier.py:2 | Lower-casing twice is lower-casing once. |
| `Text.Strip` | log_parser.py:22 | `strip()` keeps one slice. Everything outside it is whitespace, and the slice neither starts nor ends with whitespace. |
| `Text.StripUnique` | log_parser.py:22 | Those properties determine the result of `strip()`. |
| `Text.StripNewline` | log_parser.py:22 | A trailing newline does not change the result of `strip()`. |
| `Text.ContainsIffOccurs` | error_classifier.py:4-11 | The left-to-right substring test succeeds exactly when the word occurs at some index. |
| `Text.SplitJoin` | llm_summary.py:53-55 | Lines without newlines, joined with "\n", split back into the same lines. |
| `Text.Decimal` | api.py:63 | `str(n)`: non-empty decimal digits with no leading zero. |
| `Text.DecimalRoundTrip` | api.py:63 | `int(str(n)) == n`. |
| `Text.DecimalInjective` | api.py:61-64 | Distinct labels give distinct key strings. |
| `ErrorClassifier.Classify` | error_classifier.py:1-13 | `classify_error`. No ensures of its own; see `DatabaseFirst`, `TimeoutOnly`, `ApiOnly`, `MemoryOnly` and `UnknownIffNoKeyword`, and `CaseInsensitive`. |
| `ErrorClassifier.ScansFindMentions` | error_classifier.py:2-11 | Each left-to-right `in` test on the lower-cased message succeeds exactly when its keyword occurs at some index. |
| `ErrorClassifier.DatabaseFirst` | error_classifier.py:4-5 | DATABASE if and only if the lower-cased message contains "database" or "db", whatever else it contains. |
| `ErrorClassifier.TimeoutOnly` | error_classifier.py:6-7 | TIMEOUT if and only if there is no database mention and "timeout" occurs. |
| `ErrorClassifier.ApiOnly` | error_classifier.py:8-9 | API if and only if no earlier keyword occurs and "api" occurs. |
| `ErrorClassifier.MemoryOnly` | error_classifier.py:10-11 | MEMORY if and only if none of the earlier keywords occurs and "memory" occurs. |
| `ErrorClassifier.UnknownIffNoKeyword` | error_classifier.py:12-13 | UNKNOWN if and only if none of the five substrings occurs. |
| `ErrorClassifier.CaseInsensitive` | error_classifier.py:2 | A message and its lower-cased form get the same category. |
| `ErrorClassifier.DatabaseBeatsTimeout` | error_classifier.py:4-7 | "Database connection timeout" is a DATABASE error. |
| `ErrorClassifier.ApiInsideWord` | error_classifier.py:8-9 | "api" is found inside a longer word: "capital" is an API error. |
| `ErrorClassifier.EmptyIsUnknown` | error_classifier.py:12-13 | The empty message is UNKNOWN. |
| `MlCluster.Clusters` | ml_cluster.py:4-18 | The result of `cluster_unknown_errors` as a value. No ensures of its own; `ClusterUnknownErrors` is proved equal to it, and `GroupedAt`, `SelectLength`, `SelectAt` and `ClusterSizesSum` describe the grouping. |
| `MlCluster.ClusterUnknownErrors` | ml_cluster.py:4-18 | The loop's result equals `Clusters`: no clusters below the threshold, `None` when the clusterer raises, and otherwise the messages grouped by label. Every key is below `n_clusters`, and above the threshold the cluster sizes add up to the number of messages. |
| `MlCluster.GroupedAt` | ml_cluster.py:14-16 | The keys are exactly the labels that occur. Message `i` is in its own label's list, after exactly the earlier messages with that label. |
| `MlCluster.SelectLength` | ml_cluster.py:15-16 | A cluster holds as many messages as its label occurs, so duplicates are kept. |
| `MlCluster.SelectAt` | ml_cluster.py:15-16 | Message `i` sits at the position given by the number of earlier messages with its label, so the input order is kept. |
| `MlCluster.ClusterSizesSum` | ml_cluster.py:15-16 | When every label is below `n`, the cluster sizes add up to the number of messages. |
| `LlmSummary.CountSeverity` | llm_summary.py:22-24 | The count of one severity tier. No ensures of its own; see `CountIsMultiplicity` and `TierCountsBound`. |
| `LlmSummary.FallbackSummary` | llm_summary.py:20-39 | `fallback_summary`. No ensures of its own; see `FallbackSummaryLines` and `FallbackTotal`. |
| `LlmSummary.Context` | llm_summary.py:53-55 | The prompt context. No ensures of its own; see `ContextEntries` and `ContextLines`. |
| `LlmSummary.CountIsMultiplicity` | llm_summary.py:22-24 | The count for a tier is the multiplicity of exactly that string among the severities. |
| `LlmSummary.TierCountsBound` | llm_summary.py:21-24 | high + medium + low ≤ total, with equality exactly when every severity is one of the three tiers. |
| `LlmSummary.ReportTextIsJoin` | llm_summary.py:26-39 | Stripping the triple-quoted report removes exactly its framing line breaks. |
| `LlmSummary.ReportTextLines` | llm_summary.py:26-39 | The report text consists of exactly its twelve lines. |
| `LlmSummary.FallbackSummaryLines` | llm_summary.py:20-39 | The fallback report's lines are the template lines for the total and the three tier counts, each number in decimal. |
| `LlmSummary.TotalLine` | llm_summary.py:30 | The total line is "- Total events: " followed by digits that read back as the total. |
| `LlmSummary.FallbackTotal` | llm_summary.py:21-30 | The fallback report states `len(logs)` as its total. |
| `LlmSummary.ContextEntries` | llm_summary.py:54 | The context covers the first min(50, len(logs)) entries, as a prefix. |
| `LlmSummary.ContextLines` | llm_summary.py:53-55 | With single-line messages, the context splits into one line per entry among the first 50, each `[LEVEL] message`, in order. |
| `LlmSummary.GenerateIncidentSummary` | llm_summary.py:9-74 | The fallback is used when the client is absent or the key is unset or empty, and when the request raises. Otherwise the model's reply is returned. |
| `Api.BuildEntry` | api.py:34-44 | One result entry. No ensures of its own; see `EntriesAt` and `EntriesFaithful`. |
| `Api.Entries` | api.py:33-46 | One entry per log. |
| `Api.EntriesAt` | api.py:33-46 | Entry `i` is built from log `i`. |
| `Api.EntriesFaithful` | api.py:33-46 | There are min(5000, len(parsed_logs)) results. Each copies its log's timestamp, level and message, reads a missing component as "unknown", and has category = classify(message) and severity = assign_severity(level, category). |
| `Api.UnknownMessagesSources` | api.py:48-49 | The clustered messages are, in order, the messages of the entries that are UNKNOWN and ERROR. There is one per such entry, and no other entry contributes. |
| `Api.UnknownMessagesIff` | api.py:33-49 | A message is clustered exactly when one of the first 5000 logs is an ERROR with that message and the message contains none of the keywords. |
| `Api.RawClusters` | api.py:54-58 | The guarded call of the clusterer. No ensures of its own; see `ClusterGuardRedundant`, `ClusterKeysBinary` and `AnalysisFailsIff`. |
| `Api.StringKeys` | api.py:61-64 | The conversion of the keys to decimal strings. No ensures of its own; see `StringKeysRoundTrip`. |
| `Api.ClusterGuardRedundant` | api.py:54-58 | The clusterer is called only when there are unknown messages. Skipping it changes nothing, because with none it returns no clusters anyway. |
| `Api.StringKeysRoundTrip` | api.py:61-64 | Each label's list is kept unchanged under its decimal string. Every key is digits that read back as a label whose list it holds. |
| `Api.ClusterKeysBinary` | api.py:54-64 | With two clusters, the keys are at most "0" and "1". |
| `Api.AnalysisFailsIff` | api.py:54-58 | The analysis fails exactly when there are at least two unknown messages and the clusterer raises on them. |
| `Api.SummaryCountsCapped` | api.py:69 | Without a usable model, the summary's total line reads back as min(5000, len(parsed_logs)): the summary covers the capped results. |
| `Api.AnalysisOf` | api.py:29-69 | The analysis as a value: entries, clusters and summary, or `None` when the clusterer fails. No ensures of its own; `AnalyzeParsed` is proved equal to it, and the Api lemmas above describe its parts. |
| `Api.AnalyzeParsed` | api.py:29-69 | The loop and the steps after it compute `AnalysisOf`: the capped entries, the stringified clusters of the unknown messages, and the summary of the capped entries. |
| `Api.AnalyzeLog` | api.py:27-69 | Parsing the lines, then analysing the parsed logs, gives `AnalysisOf` of the parsed events. |

## Left out

- File I/O and decoding (`open(..., errors="ignore")`) are left out. `parse_logs` takes the already-decoded lines of the file, each possibly ending in "\n".
- The upload, the temporary file, the FastAPI endpoint and the `HTTPException` with status 500 that `analyze_log` raises in place of any exception (api.py:77-85) are transport and are not modelled. An exception from the clusterer is the `None` result of `Api.AnalyzeParsed`.
- TF-IDF vectorisation and k-means are floating-point numerics inside scikit-learn. They are a parameter `fit` of the clusterer. Its contract (one label per message, each below `n_clusters`) is a precondition. Its determinism (fixed random seed) is implicit, because `fit` is a function.
- The OpenAI client, `os.getenv`, the system message and the model name are left out. Availability of the library and the key are parameters. The chat request is a function from key and prompt to a reply or an exception. A reply whose content is `None` is not distinguished from a text reply.
- `severity.py` is not part of this model. `assign_severity` is an uninterpreted function parameter, and a severity is any string.
- Unicode semantics: `str.lower` and `\d` are modelled on ASCII (A–Z and 0–9 only). `\s` and `str.strip` use the full `str.isspace` character set.
- `clean_line` is not idempotent, so no such property is claimed. `LogParser.CleanLineNotIdempotent` proves the example: ESC ESC `[m[m` cleans to ESC `[m`, which cleans again to the empty string. For the same reason the cleaned line may still contain a control sequence.
- `LogParser.MatchPrefix` models the pattern under `re.VERBOSE` and relies on the character classes being disjoint. Backtracking into the greedy runs never yields another match, so no general regex engine is modelled.
- MlCluster.ClusterUnknownErrors: does not model the order of the keys. A Python dict keeps its keys in insertion order, here the order in which each label first occurs (ml_cluster.py:14-16). The model's `map` has no order. The contents of each cluster keep the order of the messages.
- Api.StringKeys: does not model the order of the keys. The dict comprehension (api.py:61-64) keeps the order of the clusterer's dict, so the JSON answer lists the clusters in first-occurrence order. The model's `map` has no order.
- `Api.ParsedLog.component` is optional, to model `log.get("component", "unknown")`. The parser always fills it, so in `Api.AnalyzeLog` the default is never used.
