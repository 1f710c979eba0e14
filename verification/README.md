# nuclio_event_etl in Dafny

This is a model of the event pipeline in `nuclio_event_etl`. The pipeline reads log lines
from TCP, groups or parses them into events, and forwards them. Nuclio functions then
extract fields from the events with regular expressions taken from a request header or
from the key-value store. The model covers
the logic of each program and proves properties about it:

- `tcpinput` (module `TcpInput`) is the multi-line event reassembler. A line that starts
  with a `YYYY-MM-DD` date begins a new event. Any other line is appended to the pending
  event after a line feed. What remains at end of stream is flushed once. The model
  compares the fold the program performs with an independent definition: the unique
  partition of the lines into runs, each run led by a date line.
- `tcpinput2` and `tcpinput3` (modules `TcpInput2` and `TcpInput3`) read one frame per
  line, of the form `time=…|meta=…|host=…|sourcetype=…|source=…|index=…|<event>`, ended by
  `###END###` in `tcpinput2` and by the end of the line in `tcpinput3`.
  - Module `Frame` holds the frame grammar. Module `FrameStream` holds the per-line loop
    both programs share.
  - For well-formed fields, frame parsing is proved to invert frame formatting, in both
    directions. Well-formed means that no field holds a line feed and that none of the
    first six fields holds the delimiter that ends it.
  - Every non-empty line yields one forwarded event. After end of stream the last match
    map is rebuilt into the event of the last non-empty line. In `tcpinput3` that event
    is forwarded once more. Both programs then hand its JSON to Go's builtin `print`,
    which shows only the length, capacity and address of the byte slice, not its
    contents (module `Console`, and "## Findings" below).
- `fieldextractor/fieldextractor.go` and `fieldextractor.go` (modules `FieldExtractor`
  and `NuclioEtl`) answer a request with the named groups of the `X-Regex` pattern. The
  answer is 204 for an empty body, 400 for a pattern that does not compile, 200 with the
  group map on a match and 204 otherwise. The two copies are proved to answer alike.
- `fieldextractor2` (module `FieldExtractor2`) applies a list of rules, in order, to the
  event text of a LogEvent and merges their group maps into `Fields`. A later rule
  overwrites an earlier one. The merge is specified by a last-writer-wins reference
  predicate. It is proved unique, compositional over concatenated rule lists, insensitive
  to non-matching rules and idempotent.
- `regexuploader` (module `RegexUploader`) puts each pattern of a file under its 0-based
  line number. It stops at the first pattern that does not compile. Keys are proved
  distinct through a decimal round trip (module `Decimal`).

Go's `regexp` package is an abstract oracle, `Regex.Engine`. It says whether a pattern
compiles, gives the group names of a compiled pattern and gives the leftmost-first match.
Only the facts Go guarantees are assumed of it, through `Regex.Sound`. The two fixed
patterns the programs hard-code are modelled concretely:

- the date prefix `^\d{4}-\d{2}-\d{2}` (`TcpInput.IsEventStart`);
- the frame pattern (`Frame.Parse`).

The frame pattern uses only lazy `(.*?)` groups ended by literal delimiters. `.` does not
match a line feed, and the pattern ends with `$`. So the leftmost-first match starts at
the first `time=` of the last line, and each group ends at the first occurrence of the
delimiter that follows it. Starting at any later `time=` could only succeed where the
first one also succeeds.

Nuclio responses are `Nuclio.Response` values. JSON and base64 encodings are kept
abstract: a body or record carries the value that the program would encode.

Some behaviours of these programs are easy to miss; the model follows the code:

- A frame line that the frame pattern rejects is still forwarded, as an event whose seven
  fields are all "". Go reads a nil map as "" (`TcpInput2.NonFrameIsEmptyEvent`).
- In `fieldextractor2` a rule whose pattern does not compile ends the request with 500
  "Regex error". It is not skipped, and the matches of earlier rules are discarded.
- In `fieldextractor2` the incoming `Fields` are replaced by an empty map before the rules
  run. The merged fields therefore never include fields that the request carried.
- `tcpinput` emits the pending text at end of stream even when it is empty, and a stream
  whose first line has no date yields an event that starts with a line feed.
- `tcpinput3` forwards the event of the last non-empty line a second time after end of
  stream. With no non-empty line at all, it forwards an all-"" event.

## Model

| member | source | states |
|---|---|---|
| TcpInput.EventStartShape | tcpinput/tcpinput.go:33 | a line starts an event exactly when it is at least ten characters long and has four digits, `-`, two digits, `-` and two digits at its start |
| TcpInput.IsEventStart | tcpinput/tcpinput.go:33 | the date pattern `^\d{4}-\d{2}-\d{2}` written out position by position, ASCII digits and literal dashes (its meaning is stated by `TcpInput.EventStartShape`) |
| TcpInput.Step | tcpinput/tcpinput.go:44-57 | one turn of the loop: nothing written is taken back, at most one event is written, and the pending event ends with the line just read |
| TcpInput.Scan | tcpinput/tcpinput.go:41-66 | the loop's state after a prefix of the lines, one `Step` per line from an empty pending event (its meaning is stated by `TcpInput.ReassembleIsGroups` and `TcpInput.EventCount`) |
| TcpInput.Reassemble | tcpinput/tcpinput.go:41-71 | the mid-stream writes followed by the final flush of the pending text (its meaning is stated by `TcpInput.ReassembleIsGroups`, and `TcpInput.PendingEmptyOnlyAtStart` shows the flushed text is "" exactly for an empty stream) |
| TcpInput.PendingEmptyOnlyAtStart | tcpinput/tcpinput.go:35-57 | the pending event is "" exactly when no line has been read yet, because a non-date first line still adds a line feed |
| TcpInput.MidStreamNeverEmpty | tcpinput/tcpinput.go:45-50 | every event written inside the loop is non-empty, so the `event != ""` guard only suppresses the write for the first date line |
| TcpInput.EventCount | tcpinput/tcpinput.go:41-71 | the number of events emitted, counting the final flush, is one more than the number of date lines after the first line |
| TcpInput.ReassembleSnoc | tcpinput/tcpinput.go:44-57 | one more line either opens a new event (date line, after the first line) or is appended to the last event after a line feed; a first line without a date gives an event starting with a line feed |
| TcpInput.Groups | tcpinput/tcpinput.go:41-71 | an explicit partition of the lines into runs, each starting with a date line except possibly the first, meets the reference predicate and is empty only for no lines |
| TcpInput.GroupingUnique | tcpinput/tcpinput.go:41-71 | at most one partition of a line sequence meets the reference predicate, so the reference is unambiguous |
| TcpInput.ReassembleIsGroups | tcpinput/tcpinput.go:41-71 | the events the loop emits are exactly the runs of the reference partition joined with line feeds, the first run led by a line feed when its first line has no date |
| TcpInput.HandleConnection | tcpinput/tcpinput.go:41-71 | the loop, written imperatively, emits the fold's events, and its last event is whatever was pending at end of stream |
| TcpInput.StartContinueStart | tcpinput/tcpinput.go:44-57 | date line, continuation, date line gives two events: the first two lines joined by a line feed, then the third |
| TcpInput.Example | tcpinput/tcpinput.go:41-71 | a concrete three-line stream reassembles into the expected two events |
| Strings.IndexOf | tcpinput2/tcpinput2.go:53 | finds the first occurrence of a delimiter, as a lazy group followed by that delimiter does; None exactly when there is none |
| Strings.SplitInterleave | tcpinput2/tcpinput2.go:53 | splitting pieces joined by delimiters gives the pieces back, when no piece contains its following delimiter and each delimiter's first character does not recur in it |
| Strings.InterleaveSplit | tcpinput2/tcpinput2.go:53 | conversely, any successful split consists of separated pieces whose interleaving is the original text |
| Strings.LastLine | tcpinput2/tcpinput2.go:53 | the part of the text a `.`-only pattern anchored at `$` can match: a suffix with no line feed, preceded by a line feed when shorter than the text |
| Strings.LastLineAppend | tcpinput2/tcpinput2.go:53 | appending text without a line feed extends the last line by that text |
| Strings.NonEmpty | tcpinput2/tcpinput2.go:67-68 | the lines the loop acts on: no empty line, no line that is not in the input, and no more lines than the input |
| Strings.NonEmptyIndices | tcpinput2/tcpinput2.go:67-68 | the positions of the non-empty lines in strictly increasing order, every non-empty position listed and no empty one |
| Strings.NonEmptySelects | tcpinput2/tcpinput2.go:67-68 | the k-th line the loop acts on is the line at the k-th non-empty position, so the order of the input is kept |
| Strings.NonEmptyCounts | tcpinput2/tcpinput2.go:67-68 | every non-empty line is acted on exactly as often as it occurs, and no empty line is |
| Regex.SubMatchMap | fieldextractor2/fieldextractor2.go:210-225 | the map's keys are the names of groups 1..n, and a group whose name no later group repeats maps to its own text |
| Regex.MatchMap | tcpinput2/tcpinput2.go:140-155 | nil exactly when there is no match, and otherwise keyed by the group names after the whole match |
| Regex.ReSubMatchMap | fieldextractor/fieldextractor.go:57-72 | on a compiled pattern, nil exactly when the pattern finds no match, and otherwise each last-named group maps to its captured text |
| Frame.Parse | tcpinput2/tcpinput2.go:53 | the frame regex of both programs (`tcpinput3/tcpinput3.go:75` with an empty trailer): the last line split at the first occurrence of each delimiter, the last piece ending with the trailer (its meaning is stated by `Frame.RoundTrip` and `Frame.ParseShape`) |
| Frame.Build | tcpinput2/tcpinput2.go:80-86 | the seven assignments from the match map, a nil map or missing key reading as "", also used after the loop at lines 124-130 (its meaning is stated by `Frame.BuildMatch`) |
| Frame.RoundTrip | tcpinput2/tcpinput2.go:53 | for well-formed fields (no line feed; none of the first six fields holds the delimiter that ends it), parsing a formatted frame after text whose last line has no `time=` gives back the seven fields, for any trailer without a line feed |
| Frame.RoundTripNeedsWellFormed | tcpinput2/tcpinput2.go:53 | the well-formedness condition of `Frame.RoundTrip` cannot be dropped: fields that come back unchanged from parsing their formatted frame are well formed |
| Frame.ParseShape | tcpinput2/tcpinput2.go:53 | whatever parses is a well-formed field list whose frame ends the last line, with no `time=` before it on that line |
| Frame.TrailerIntoEvent | tcpinput3/tcpinput3.go:75 | the trailer-free pattern accepts every line the trailed one accepts, reading the trailer as the end of the event field |
| Frame.Find | tcpinput2/tcpinput2.go:142 | `FindStringSubmatch` with the frame regex (also `tcpinput3/tcpinput3.go:168`): on a match, the match text is the formatted frame `Format(ev, trailer)` from the first `time=` to the end, followed by the seven group texts, one entry per name in `Names` |
| Frame.DoRegexMatch | tcpinput2/tcpinput2.go:140-155 | `doRegexMatch` on the frame regex (also `tcpinput3/tcpinput3.go:166-181`): `Regex.MatchMap` over `Names` applied to `Frame.Find` (its meaning is stated by `Frame.BuildMatch`) |
| Frame.BuildMatch | tcpinput2/tcpinput2.go:71-86 | `doRegexMatch` is nil exactly when parsing fails and otherwise has the seven field names as keys; the event read off it is the parsed one, or all "" on a nil map |
| Frame.NamedGroups | tcpinput2/tcpinput2.go:146-150 | each of the seven keys holds the text of its own group |
| FrameStream.EventOf | tcpinput2/tcpinput2.go:71-86 | the event assigned for one line is its parsed fields, or all "" when the line is not a frame |
| FrameStream.Posted | tcpinput2/tcpinput2.go:61-116 | the events posted for a stream, one per non-empty line, as a fold over the lines (its meaning is stated by `FrameStream.PostedAreParsed`) |
| FrameStream.LastFields | tcpinput2/tcpinput2.go:51-71 | the `fields` variable after the loop: the match map of the last non-empty line, nil when there was none (its meaning is stated by `FrameStream.RebuiltIsLast`) |
| FrameStream.PostedAreParsed | tcpinput2/tcpinput2.go:61-116 | one event is posted per non-empty line, the i-th being the event of the i-th non-empty line |
| FrameStream.RebuiltIsLast | tcpinput2/tcpinput2.go:124-130 | the event rebuilt from `fields` after the loop is that of the last non-empty line, or all "" when there was none |
| FrameStream.Loop | tcpinput2/tcpinput2.go:61-121 | the imperative loop computes the posted-events and last-fields folds |
| FrameStream.ReadLines | tcpinput2/tcpinput2.go:61-130 | the posted events are the parses of the non-empty lines in order, and the rebuilt event is the last of them or all "" |
| TcpInput2.MatchEndsWithMarker | tcpinput2/tcpinput2.go:53 | `doRegexMatch` with this program's regex yields a map only for lines whose last line ends with `###END###` |
| TcpInput2.NonFrameIsEmptyEvent | tcpinput2/tcpinput2.go:71-86 | a line missing the end marker or a delimiter is not rejected but still posted, as an event with every field "" |
| TcpInput2.FrameRoundTrip | tcpinput2/tcpinput2.go:53-86 | for well-formed fields (no line feed; none of the first six fields holds the delimiter that ends it), after text whose last line has no `time=`, the event posted for a formatted frame ending in `###END###` carries exactly the fields that were formatted |
| TcpInput2.HandleConnection | tcpinput2/tcpinput2.go:61-134 | one post per non-empty line carrying its parsed event (all "" if it is not a frame); the rebuilt event is that of the last non-empty line, or all ""; the final line written is the label followed by the rebuilt event's JSON (the corrected print) |
| TcpInput3.Wrap | tcpinput3/tcpinput3.go:67-71 | the body posted for one event: the single shared record of stream `eventinput` with its data replaced, lines 100-104 (its meaning is stated by `TcpInput3.WrapAll`) |
| TcpInput3.WrapAll | tcpinput3/tcpinput3.go:100-104 | each body puts exactly one record to stream `eventinput`, with empty client info and partition key, shard 0 and the event as data |
| TcpInput3.HandleConnection | tcpinput3/tcpinput3.go:67-163 | one put per non-empty line carrying its event, then one more put carrying the rebuilt event; that extra put repeats the last one, or carries an all-"" event when no line was non-empty; the final line written is the label followed by the rebuilt event's JSON (the corrected print) |
| TcpInput3.FrameRoundTrip | tcpinput3/tcpinput3.go:75-98 | for well-formed fields (no line feed; none of the first six fields holds the delimiter that ends it), after text whose last line has no `time=`, the event forwarded for a formatted frame without trailer carries exactly the fields that were formatted |
| TcpInput3.KeepsEndMarker | tcpinput3/tcpinput3.go:75 | a frame `tcpinput2` accepts is accepted here too, with `###END###` left at the end of the event field |
| FieldExtractor.Handler | fieldextractor/fieldextractor.go:11-55 | 204 "Body empty" for an empty body; otherwise 400 "Regex error" exactly when the pattern does not compile, 200 JSON exactly when it matches, holding every group name with last-named groups mapped to their text; 204 otherwise |
| NuclioEtl.Handler | fieldextractor.go:9-58 | the earlier copy answers every request exactly as `FieldExtractor.Handler` does |
| FieldExtractor2.MergeAll | fieldextractor2/fieldextractor2.go:179-184 | the merged map satisfies the last-writer-wins reference: a key is present exactly when the start map or some match has it, and holds the value of the last match defining it, else the start value |
| FieldExtractor2.MergeUnique | fieldextractor2/fieldextractor2.go:179-184 | the reference determines the merged map uniquely |
| FieldExtractor2.MergeAppend | fieldextractor2/fieldextractor2.go:156-190 | merging two rule lists one after the other equals merging their concatenation, so the merge is compositional over concatenated rule lists |
| FieldExtractor2.SkipNonMatching | fieldextractor2/fieldextractor2.go:179 | a rule that does not match leaves the merge unchanged |
| FieldExtractor2.MergeFactor | fieldextractor2/fieldextractor2.go:143-184 | merging onto a start map equals that map overridden by the merge onto an empty one |
| FieldExtractor2.MergeIdempotent | fieldextractor2/fieldextractor2.go:156-190 | applying the same rules to the same text twice gives the same fields as once |
| FieldExtractor2.RunRules | fieldextractor2/fieldextractor2.go:143-190 | fails exactly when some rule's pattern does not compile; otherwise the fields are the ordered merge of all matches onto an empty map, and a JSON body exists exactly when some rule matched and equals the final event |
| FieldExtractor2.Handler | fieldextractor2/fieldextractor2.go:111-206 | 204 for an empty body; 500 "Regex error" exactly when some pattern does not compile; 200 exactly when all compile and one matches, answering the event with its fields replaced by the merged matches; 204 otherwise |
| Decimal.Itoa | regexuploader/regexuploader.go:59 | `strconv.Itoa` of a natural number is a canonical digit string (no leading zero unless it is "0") |
| Decimal.AtoiItoa | regexuploader/regexuploader.go:59 | reading back the decimal text of a number gives the number |
| Decimal.ItoaAtoi | regexuploader/regexuploader.go:59 | a canonical digit string is the decimal text of its value |
| Decimal.ItoaInjective | regexuploader/regexuploader.go:59-72 | different numbers have different decimal texts |
| RegexUploader.PutFor | regexuploader/regexuploader.go:58-72 | the request for line i: class `strconv.Itoa(i)`, the line as regex, URL the extract path followed by the class (its meaning is stated by `RegexUploader.KeysDistinct`) |
| RegexUploader.Upload | regexuploader/regexuploader.go:44-91 | puts the lines in order, line i under class `i`, until the first line that does not compile; it stops there exactly when such a line exists, and otherwise puts every line |
| RegexUploader.KeysDistinct | regexuploader/regexuploader.go:58-72 | a put's URL is the extract path followed by its class, and different lines get different classes and URLs |
| RegexUploader.ClassIsLineNumber | regexuploader/regexuploader.go:58-59 | the class of the put for line i reads back as i |
| Console.EventLineAsWritten | tcpinput2/tcpinput2.go:132-134 | what the final `print` writes as the code stands: the label, then `[` and the slice header of the JSON, never its text |
| Console.AsWrittenShowsOnlyLength | tcpinput2/tcpinput2.go:132-134 | as written, any two JSON texts of the same length produce the same printed line, whatever the capacity and address |
| Console.AsWrittenLosesEvent | tcpinput3/tcpinput3.go:139-163 | for instance, two JSON texts that differ only in the time produce the same printed line, whatever the capacity and address |
| Console.EventLine | tcpinput2/tcpinput2.go:132-134 | the intended line: the label followed by exactly the JSON text |
| Console.EventLineShowsEvent | tcpinput2/tcpinput2.go:132-134 | the intended line determines the JSON it shows: different texts print differently |

## Findings

| source | as written | input that shows it | evidently intended | confidence | as-written member | corrected member |
|---|---|---|---|---|---|---|
| tcpinput2/tcpinput2.go:132-134 | `print("\nEvent:\n", logEventJSON)` passes the `[]byte` to Go's builtin `print`, which writes only the slice header `[len/cap]0xaddr` | any stream; for instance the rebuilt events `{"time":"1"}` and `{"time":"2"}` print the same line | print the JSON text, as the loop does with `string(logEventJSON)` at line 90 | high, not executed | Console.EventLineAsWritten, Console.AsWrittenShowsOnlyLength, Console.AsWrittenLosesEvent | Console.EventLine, Console.EventLineShowsEvent, used by TcpInput2.HandleConnection |
| tcpinput3/tcpinput3.go:139-163 | the same `print` of the `[]byte`; the rebuilt event is visible only through the extra put | as above | print the JSON text | high, not executed | Console.EventLineAsWritten, Console.AsWrittenShowsOnlyLength, Console.AsWrittenLosesEvent | Console.EventLine, Console.EventLineShowsEvent, used by TcpInput3.HandleConnection |

The handlers' `shown` output is the corrected line. The JSON encoding is the abstract
parameter `encode`. The capacity and address the as-written line shows depend on the
allocator, so they are parameters of `Console.EventLineAsWritten`.

## Left out

- Listening on TCP, accepting connections, goroutines and the read deadline. A connection
  is modelled as its finished sequence of lines, as `bufio.Scanner` delivers them. The
  idle timeout therefore appears only as end of stream. Scanner errors and over-long lines
  are not modelled.
- `tcpinput`'s writes to `/tmp/event` and its prints. The emitted events are the
  sequence of texts written.
- Every HTTP request, its headers and its response, and a `panic` on a failed request.
  A post or put is modelled as the value it would carry.
- JSON and base64 encoding, and JSON decoding in `fieldextractor2`. The decoded LogEvent
  is an unconstrained parameter, so it covers whatever `json.Unmarshal` left behind:
  all-zero for malformed JSON, or partly filled when a field has the wrong type (the
  error is only logged).
- `fieldextractor2`'s `GetItems` paging loop that loads the rules from the key-value
  store. The rules are a parameter, in the order the store returns them.
- Go's regular-expression engine in general. It is an abstract oracle, and only the two
  fixed patterns are modelled concretely.
- The missing `X-Regex` header case in the field extractors. The Go type assertion would
  panic there; the pattern is a parameter.
- Reading the pattern file and `log.Fatal` in `regexuploader`. The file is the list of its
  lines, and `log.Fatal` is the `aborted` result.
- Decimal.Itoa: works on unbounded naturals. The Go `int` line counter cannot overflow for
  any file that fits in memory.
- `tcpinput4` and `raweventparser` are not part of this model.
- The choice of rules in `fieldextractor2`: it always loads the rules stored under the
  constant sourcetype `mysourcetype` (`fieldextractor2/fieldextractor2.go:67-77`) and never
  looks at the decoded event's own `sourcetype`. The rules are a parameter of the model.
- Logging and debug output. The one exception is the final builtin `print` of the
  rebuilt event in `tcpinput2` and `tcpinput3`, modelled as `shown` and by module
  `Console`, because it is the subject of the "## Findings" rows.
