# query-bench in Dafny

query-bench is a load generator for a Prometheus server. `main` prepares three inputs, in this order, and exits at the first one that fails:

1. It asks the server for every value of one label (the "instances").
2. It parses the `-range` flag, which sets the length of each query's window. The flag accepts Go durations, plus a `d` suffix for days.
3. It reads a file of PromQL query templates.

Then, on every tick of a timer, it starts `numThreads` workers. Each worker walks the instances and, for each instance, every template. It replaces the filter `instance="host-0"` in the template with the instance's own filter, sends the query as a range query over the tick's window, logs a failure and goes on. After each instance it sleeps.

This project models four parts of `query-bench.go` and proves what each one promises:

- **`Durations`** models `parseDuration`. Go's `time.ParseDuration` is a parameter `primitive` of `ParseRange` and of every lemma about it, so each property holds for any such parser. The days form calls the primitive on the hour form and multiplies the result by 24. That multiplication is Go `int64` arithmetic and wraps around. The model says so (`Wrap64`), and `DaysOverflowWraps` exhibits the wrap.
- **`QueryLoader`** models the filtering loop of `loadQueries`. `LoadQueries` is the loop itself. `Templates` is the function that specifies it, and the lemmas describe the templates it yields: order, completeness, and that blank lines are dropped.
- **`Strings`** models the parts of Go's `strings` package that query-bench relies on: `TrimSpace` with the `unicode.IsSpace` set written out, `HasSuffix`, `TrimSuffix` and `ReplaceAll`. Each has an independent characterisation: `TrimSpace` as "the text between the white space", and for `ReplaceAll`, which matches it replaces (the leftmost, then those after it), when it changes nothing and how the length changes.
- **`Workload`** models one tick of the main loop. `RunInstance`, `RunWorker` and `RunRound` are the nested loops, each proved against a specification function (`InstanceQueries`, `Walk`, `WalkFailures`). The lemmas derive from those functions:
  - the order of the calls (instance-major, template-minor);
  - the number of calls and sleeps;
  - that every call of a round uses the same window;
  - that the failure log has exactly one line per failed call, in call order, and that a failure never stops a worker.

Two details of the code that the model keeps:

- A failed query is logged with the instance index `i` of the inner goroutine loop; the worker index is not logged.
- On a read error, `loadQueries` returns the templates read so far together with the error, and `main` exits. The model takes the lines as already read, so this path does not arise in it.

## Model

| member | source | states |
|---|---|---|
| Durations.ParseRange | query-bench.go:91-101 | The result's error is exactly the primitive parser's error on the rewritten text: `NNd` becomes `NNh`, anything else stays as it is. |
| Durations.Rewritten | query-bench.go:92-100 | The text handed to the primitive parser never ends in `d`. For a `d`-suffixed range, it is that range with the final `d` replaced by `h`; any other range is handed over unchanged. |
| Durations.DaysAreTwentyFourHours | query-bench.go:92-98 | A `d` range whose hour form parses has no error. Its value is 24 times the hour form's value, wrapped to 64 bits, and exactly 24 times when that product fits. |
| Durations.DaysErrorHasNoSpan | query-bench.go:94-97 | A `d` range whose hour form is rejected returns the value 0 with that same error. |
| Durations.OtherRangesPassThrough | query-bench.go:100 | A range without a `d` suffix returns the primitive parser's value and error unchanged. |
| Durations.ConsultsOnlyRewritten | query-bench.go:91-101 | Two primitive parsers that agree on the rewritten text give the same result: nothing else is consulted. |
| Durations.Wrap64 | query-bench.go:98 | The result is the 64-bit value congruent to `x` modulo 2^64, and equals `x` whenever `x` fits in an `int64`. |
| Durations.DaysOverflowWraps | query-bench.go:98 | `106752d` parses without error to a negative duration when `106752h` parses to its exact value: `n * 24` overflows silently. |
| Strings.TrimSpace | query-bench.go:113 | The result has no white space at either end, is no longer than the input, and is empty exactly when the input is all white space. |
| Strings.TrimSpaceUnique | query-bench.go:113 | For any split of `s` into white space, a text with no white space at its ends, and white space, `TrimSpace` returns that text. |
| Strings.TrimSpaceSplit | query-bench.go:113 | Every input is leading white space, then `TrimSpace` of it, then trailing white space. |
| Strings.TrimSpaceIdempotent | query-bench.go:113 | Trimming twice gives the same as trimming once. |
| Strings.HasSuffix | query-bench.go:92 | `s` has the suffix exactly when it is long enough and is its own prefix followed by the suffix. |
| Strings.TrimSuffix | query-bench.go:93 | With the suffix present, the result followed by the suffix is the input; otherwise the input is returned unchanged. |
| Strings.ReplaceAll | query-bench.go:76 | Go's `strings.ReplaceAll` for a non-empty pattern: a scan from the left that replaces a match and resumes after it. The lemmas below characterise it. |
| Strings.FirstMatch | query-bench.go:76 | The index where the scan finds its first match; it is at most the text's length. |
| Strings.FirstMatchLeftmost | query-bench.go:76 | The pattern is at `FirstMatch` when it fits there, it is at no earlier position, and when it does not fit it occurs nowhere. |
| Strings.ReplaceAllKeepsPrefix | query-bench.go:76 | The text before the first match comes through unchanged, followed by the replacement of the rest. |
| Strings.ReplaceAllLeftmost | query-bench.go:76 | When the pattern occurs, the result is the text before its leftmost match, then the replacement, then the replacement of what follows that match, so matches never overlap. |
| Strings.ReplaceAllLength | query-bench.go:76 | The output's length is the input's plus, for each replacement, the difference between the replacement's and the pattern's lengths. |
| Strings.CountPositiveIffOccurs | query-bench.go:76 | At least one replacement is made exactly when the pattern occurs in the input. |
| Strings.ReplaceAllAbsent | query-bench.go:76 | An input without the pattern comes back unchanged. |
| Strings.ReplaceAllSelf | query-bench.go:76 | Replacing the pattern by itself changes nothing. |
| Strings.ReplaceAllSameLengthChanges | query-bench.go:76 | When the pattern occurs, a different replacement of the same length changes the input. |
| Strings.ReplaceAllUnchangedIff | query-bench.go:76 | The input comes back unchanged if and only if the pattern is absent or the replacement equals the pattern. |
| QueryLoader.LoadQueries | query-bench.go:110-117 | The loop's result is `Templates(lines)`. |
| QueryLoader.Templates | query-bench.go:110-117 | There are no more templates than lines, and every template is non-empty and has nothing left to trim. |
| QueryLoader.TemplatesFollowOrigins | query-bench.go:112-116 | The j-th template is the trimmed text of the j-th non-blank line, and there are as many templates as non-blank lines. |
| QueryLoader.OriginsIncrease | query-bench.go:112-116 | The lines the templates come from are strictly increasing, so file order is kept. |
| QueryLoader.OriginsSnoc | query-bench.go:113-115 | A new last line adds its own index to the origins exactly when it is not blank, and changes no other. |
| QueryLoader.OriginsAreNonBlank | query-bench.go:113-114 | A line yields a template if and only if it is not blank after trimming. |
| QueryLoader.BlankLinesIgnored | query-bench.go:113-114 | Appending a blank line does not change the templates. |
| QueryLoader.TrimmedLineKept | query-bench.go:113-115 | Appending a non-empty line with no white space at either end appends exactly that line to the templates. |
| QueryLoader.FourLineFile | query-bench.go:110-117 | The lines `"  "`, `up{instance="host-0"}`, `""`, `rate(foo[5m])` yield exactly the second and the fourth, in order. |
| Workload.InstanceFilter | query-bench.go:76 | The filter `instance="<instance>"` that `fmt.Sprintf` builds for an instance. |
| Workload.Substitute | query-bench.go:76 | The query for one instance: every match of `instance="host-0"` in the template replaced by the instance's filter. |
| Workload.RoundWindow | query-bench.go:67-68 | The window ends at `end`. It spans exactly `range` before it, except for the minimum `int64` duration, whose negation wraps to itself: the start is then `end` minus 2^63 ns. |
| Workload.InstanceFilterIsPlaceholderIff | query-bench.go:76 | An instance's filter is the placeholder `instance="host-0"` if and only if the instance is `host-0`. |
| Workload.SubstituteUnchangedIff | query-bench.go:76 | Substitution returns the template unchanged if and only if the instance is `host-0` or the placeholder does not occur in the template. |
| Workload.SubstitutePlaceholder | query-bench.go:76 | The template `instance="host-0"` becomes `instance="<instance>"`. |
| Workload.SubstituteBraced | query-bench.go:76 | The template `{instance="host-0"}` becomes `{instance="<instance>"}`. |
| Workload.RunInstance | query-bench.go:75-81 | For one instance, the queries sent are the templates in order, with the instance substituted and the round's window. The failures logged are exactly the executor's errors, in order. |
| Workload.RunWorker | query-bench.go:74-83 | The worker's events are `Walk(instances, templates, w)`, whatever the executor answers, and its failure log is `WalkFailures`. |
| Workload.RunRound | query-bench.go:66-86 | There are `max(numThreads, 0)` workers. Each runs the full walk with the one window computed at the tick, and has the failure log of its own calls. |
| Workload.WalkBlock | query-bench.go:74-83 | After the events for the earlier instances, the walk holds instance `i`'s queries followed by one sleep. |
| Workload.WalkAt | query-bench.go:74-83 | The walk has `|instances| * (|templates| + 1)` events. Position `i * (|templates| + 1) + k` holds the query for template `k` with instance `i`, or the sleep when `k == |templates|`. |
| Workload.WalkCounts | query-bench.go:74-83 | A worker makes exactly `|instances| * |templates|` calls and sleeps exactly `|instances|` times. Every call is its own, with the round's window and an instance index below `|instances|`. |
| Workload.CallsOfAppend | query-bench.go:74-83 | Calls and sleeps of a concatenation are those of its parts. |
| Workload.InstanceFailuresDescribed | query-bench.go:75-81 | The failures logged for an instance are, line by line and in order, the lines of its failed calls. |
| Workload.FailuresPrefixDescribed | query-bench.go:74-81 | Over the first `n` instances, the log is, line by line and in order, the lines of the failed calls. |
| Workload.InstanceSlotsExact | query-bench.go:75-80 | For one instance, the failed calls are exactly the calls the executor answered with an error, in strictly increasing template order, at most one per template. |
| Workload.SlotsPrefixMembers | query-bench.go:74-80 | Over the first `n` instances, a call is among the failed calls if and only if the executor answered it with an error; there are at most `n * count` of them. |
| Workload.SlotsPrefixAscending | query-bench.go:74-80 | Over the first `n` instances, the failed calls come in strictly increasing walk order, so none is repeated. |
| Workload.WalkFailuresExact | query-bench.go:74-81 | A worker's log has exactly one line per failed call, in call order. Each line names that call's instance index and the executor's message. The failed calls are exactly those answered with an error, and the log has at most `|instances| * |templates|` lines. |
| Workload.LineOfFailedCall | query-bench.go:79 | The line for a failed call carries the message the executor returned for that call. |
| Workload.OneFailedCallOneLine | query-bench.go:75-81 | One instance, two templates, only the first call failing with `x`: the log is exactly the one line `Instance 0 … x`. |
| Workload.RoundCounts | query-bench.go:70-86 | A round of `W` workers makes `W * |instances| * |templates|` calls and `W * |instances|` sleeps. Every call uses the same window, a worker index below `W` and an instance index below `|instances|`. |
| Workload.TwoInstancesOneTemplate | query-bench.go:74-82 | With instances `a`, `b` and the template `{instance="host-0"}`, the worker sends `{instance="a"}`, then `{instance="b"}`, both with the round's window, each followed by a sleep. |

## Left out

- `time.ParseDuration` is not modelled: its grammar is a parameter of `ParseRange` and of the lemmas about it. So "`2d` is 48 hours" holds relative to the parser, not for Go's own parser.
- `getAllLabelValues` and `queryPrometheusRange` are not modelled: HTTP, JSON decoding and the authorization header are network I/O. Their answers are parameters: the instances are a sequence, and `Executor` says for each call whether it failed and with what message.
- The executor is indexed by worker, instance index and template index. The Go goroutines have no worker number, so this is only the model's way of naming each call.
- Command-line flags are not modelled. Their values (`numThreads`, the range, the instances, the templates) are parameters.
- The endless ticker loop and `time.Now` are not modelled. One tick is modelled, and the tick's time `end` is a parameter.
- Goroutines and the `WaitGroup` are not modelled. Workers run one after the other, each with its own trace, and no order between the calls of different workers is claimed.
- `time.Sleep` is not modelled; a sleep is recorded as an event and counted.
- The formatting of the `step` parameter and the request URL is not modelled. Neither changes the calls.
- The window's ends are unbounded integers: `time.Time.Add` overflow is not modelled. The negation `-duration` is modelled on `int64`, including its wrap for the minimum duration.
- File opening, `bufio.Scanner` line splitting, its 64 KiB token limit and read errors are not modelled: the lines are taken as already read.
- Strings are sequences of code points; UTF-8 byte encoding is not modelled.
- `strings.ReplaceAll` with an empty pattern is not modelled; query-bench always uses the non-empty placeholder.
