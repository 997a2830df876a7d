# rust_wc in Dafny

`rust_wc` is a small `wc`-like command-line tool. Every command-line
argument names a file. For each file the tool prints:

- the number of lines the buffered reader yields;
- the number of whitespace-separated words;
- a "character" count: the sum over those lines of the line's UTF-8 byte
  length plus one.

A file that does not exist, or that cannot be opened, gets a message on
standard error and is skipped. A file whose lines cannot be read (invalid
UTF-8, or an I/O error during the read) makes the `expect` in the scan
panic, and the panic ends the whole run.

The model has three modules:

- `Utf8Text` (`text.dfy`) covers the text primitives the scan relies on:
  - the UTF-8 byte length of a string (`str::len`);
  - Unicode `White_Space` and the word count of `split_whitespace`;
  - the way `BufRead::lines` cuts a text into lines. A line feed ends a
    line, and one `'\r'` right before it is dropped. A last line without
    a line feed is still yielded, with its `'\r'` kept.
- `Metrics` (`metrics.dfy`) holds the `Metrics` record, the scan
  `get_metrics` as a method with its counter loop, and a specification of
  the three tallies as sums over the lines. The lemmas give each tally in
  closed form in terms of the file's contents:
  - the line count comes from the line feeds;
  - the word count is the `split_whitespace` count of the whole file;
  - the character count comes from the byte length and the `"\r\n"`
    pairs.
- `Driver` (`driver.dfy`) covers `file_exists`, `open_file` and the
  argument loop of `main`. The filesystem is a map from path to what
  stands there: a non-regular entry, a file that cannot be opened, a
  decodable text file, or a file that cannot be read. A run yields a
  sequence of per-argument outcomes and an exit kind.

A file's text is modelled as a decoded `string`, i.e. a
sequence of Unicode scalar values. A file whose bytes are not valid UTF-8
is the `Undecodable` entry.

## Model

| member | source | states |
|---|---|---|
| Utf8Text.Width | src/main.rs:40 | each character is 1 to 4 bytes in UTF-8, and exactly 1 byte iff it is ASCII |
| Utf8Text.ByteLen | src/main.rs:40 | `line.len()`, the UTF-8 byte length, lies between the character count and four times the character count |
| Utf8Text.ByteLenAppend | src/main.rs:40 | the byte length of a concatenation is the sum of the byte lengths |
| Utf8Text.ByteLenAscii | src/main.rs:40 | an ASCII-only line has byte length equal to its character count |
| Utf8Text.Runs | src/main.rs:41 | the number of words that start in a suffix, given whether a word is already open, is at most half the suffix length rounded up |
| Utf8Text.Words | src/main.rs:41 | `split_whitespace().count()`: at most one word per two characters (rounded up), and never more words than characters |
| Utf8Text.RunsSplit | src/main.rs:41 | a whitespace character splits the word count of the rest of the text into two independent counts |
| Utf8Text.WordsSplit | src/main.rs:41 | a whitespace character between two texts makes the word count the sum of theirs |
| Utf8Text.WordsWhitespaceRun | src/main.rs:41 | any non-empty run of whitespace separates words like a single space: how many whitespace characters there are does not matter |
| Utf8Text.RunsInsideWord | src/main.rs:41 | continuing an open word through non-whitespace starts no new word |
| Utf8Text.SingleWord | src/main.rs:41 | a non-empty line with no whitespace is exactly one word |
| Utf8Text.WordsExample | src/main.rs:41 | `"a   b"` has two words: repeated separators create no empty words |
| Utf8Text.ScanLine | src/main.rs:36 | in the middle of a line, text up to the next line feed completes that line, minus a trailing `'\r'`, and scanning starts afresh after the line feed |
| Utf8Text.LinesAt | src/main.rs:36 | the first line of a text is everything before its first line feed, minus a trailing `'\r'` |
| Utf8Text.ScanNoNewline | src/main.rs:36 | the scan yields no line that contains a line feed |
| Utf8Text.LinesHaveNoNewline | src/main.rs:36 | no yielded line contains a line feed |
| Utf8Text.ScanCount | src/main.rs:36 | from any point in a line, the scan yields one line per line feed still ahead, plus one when the text ends without a line feed or the open line is all that is left |
| Utf8Text.LineCount | src/main.rs:36 | the number of lines is the number of line feeds, plus one when the text ends without a line feed |
| Utf8Text.ScanAppend | src/main.rs:36 | a scan across a line-feed-terminated prefix splits into the scan of the prefix and a fresh scan of the rest |
| Utf8Text.LinesAppend | src/main.rs:36 | the lines of a text whose first part ends in a line feed are the lines of each part, concatenated |
| Utf8Text.LinesUnlines | src/main.rs:36 | joining lines, each followed by a line feed, and reading them back gives the same lines, provided no line holds a line feed or ends in `'\r'` |
| Utf8Text.CrLfCountAppend | src/main.rs:36 | a count of `"\r\n"` pairs over a concatenation is the sum over the parts, plus one for a pair that straddles the boundary |
| Utf8Text.CrLfCountNoNewline | src/main.rs:36 | a text without a line feed holds no `"\r\n"` pair |
| Metrics.GetMetrics | src/main.rs:29-49 | the counter loop ends with the tallies summed over the reader's lines: one line per line, as many words as the whole file has, words and lines together never exceeding the character count, and zero tallies for an empty file |
| Metrics.MeasureSingle | src/main.rs:39-41 | a single line adds one line, its byte length plus one, and its words |
| Metrics.MeasureLineCount | src/main.rs:39 | the line counter equals the number of lines yielded |
| Metrics.MeasureCons | src/main.rs:36-42 | the first line's tallies add to those of the lines after it |
| Metrics.WordsWithinChars | src/main.rs:39-41 | every line adds at least one more to the character count than it adds words, so words plus lines is at most the character count |
| Metrics.MeasureAppend | src/main.rs:36-42 | the tallies of two runs of lines add component-wise |
| Metrics.CountersGrow | src/main.rs:39-41 | along the loop each counter only grows, and the line counter grows by exactly the number of lines passed |
| Metrics.MetricsAdditive | src/main.rs:29-49 | the tallies of two files concatenated, the first ending in a line feed, are the sums of their tallies |
| Metrics.LinesTally | src/main.rs:36-39 | the reported line count is the number of line feeds, plus one when the file ends without one |
| Metrics.ByteLenStripCR | src/main.rs:36-40 | the dropped `'\r'` is one byte that the character count does not see |
| Metrics.NewlineTally | src/main.rs:36-40 | byte length, `"\r\n"` pairs and open ending of a text across one line feed |
| Metrics.ScanNewline | src/main.rs:36-40 | a line feed closes the current line, which adds its stripped byte length plus one |
| Metrics.ScanCharsEnd | src/main.rs:36-40 | at the end of the text an open line adds its byte length plus one |
| Metrics.ScanCharsNewline | src/main.rs:36-40 | the closed form of the character count carries over a line feed |
| Metrics.ScanChars | src/main.rs:36-40 | seen mid-line, the character count plus the `"\r\n"` pairs is the byte length, plus one for an unterminated last line |
| Metrics.CharsTally | src/main.rs:36-40 | the character count is the file's byte length, minus one per `"\r\n"` pair, plus one when the last line has no line feed |
| Metrics.WordsStripCR | src/main.rs:36-41 | dropping a carriage return before a line feed changes no word count, since `'\r'` is whitespace |
| Metrics.ScanWordsEnd | src/main.rs:36-41 | at the end of the text an open line adds exactly its own words |
| Metrics.ScanWordsNewline | src/main.rs:36-41 | across a line feed the word tally keeps matching the word count of the text seen so far |
| Metrics.ScanWords | src/main.rs:36-41 | seen mid-line, the word tally of the remaining lines is the word count of the open line followed by the rest of the text |
| Metrics.WordsTally | src/main.rs:36-41 | the reported word count is the `split_whitespace` count of the whole file: cutting it into lines neither joins nor splits words |
| Metrics.CharsOfTerminatedText | src/main.rs:40 | for a file whose lines all end in a bare line feed, the character count is the byte length |
| Metrics.CharsOfOpenText | src/main.rs:40 | for a file without `"\r\n"` whose last line has no line feed, the character count is one more than the byte length |
| Metrics.HelloWorld | src/main.rs:36-42 | `"hello world\n"` gives 1 line, 2 words and 12 characters |
| Driver.OpenFile | src/main.rs:15-27 | `NotFound` exactly when the path is absent or not a regular file; the open fails exactly on a file that cannot be opened; otherwise the file at that path is opened |
| Driver.OutcomeFor | src/main.rs:59-81 | one argument gives a report exactly when it names a readable text file, with that file's tallies; it panics exactly when the file cannot be read; otherwise it is an open error, `NotFound` when the path is not an existing regular file and the open failure otherwise |
| Driver.OutcomesInOrder | src/main.rs:59-82 | outcome `k` belongs to argument `k`, only the last outcome can be a panic, and a run stops early only on a panic |
| Driver.OutcomesSnoc | src/main.rs:59-82 | while nothing has panicked, one more argument appends exactly its own outcome |
| Driver.OutcomesStop | src/main.rs:37 | after a panic, later arguments produce nothing |
| Driver.Run | src/main.rs:51-85 | the usage message is shown exactly when there are no arguments; the outcomes are those of the arguments in order; the run ends normally exactly when nothing panicked |
| Driver.OneOutcomePerArgument | src/main.rs:59-68 | without unreadable files there is exactly one outcome per argument, in argument order |
| Driver.MissingFileSkipped | src/main.rs:59-68 | a missing file gives a not-found outcome, and the next argument is still processed |

## Left out

- Filesystem access (`Path::exists`, `is_file`, `File::open`, reading) is abstracted to a map from path to entry. The `io::Error` values become the two `OpenErrorKind` cases, and their message text is not modelled.
- UTF-8 decoding is not modelled byte by byte. A file is either its decoded text or `Undecodable`, and the I/O error a read can raise half-way through a file is folded into `Undecodable`. Only the final state of a run that panics is modelled, not the lines scanned before the panic.
- Output formatting (`println!`, `eprintln!`, the tab-separated line) is not modelled. `Outcome` records what is reported.
- Metrics.GetMetrics: the counters are unbounded naturals, so `u128` overflow is not modelled. It would need a file of more than 2^128 bytes.
- The `Err` arm at `src/main.rs:78-80` is not modelled. It would report "Error processing file" and go on to the next argument, but `get_metrics` only ever returns `Ok`: the `expect` at `src/main.rs:37` panics first, so the arm is dead code. The model therefore ends the whole run with a panic on an unreadable file.
- Driver.Run: arguments are Unicode strings. `std::env::args()` at `src/main.rs:52` panics while collecting an argument that is not valid Unicode, before the empty-arguments test. That run has no usage message, no outcome and a panic exit. `Run`'s contract covers only runs whose arguments are all valid Unicode.
- Driver.Run: writes to standard output and standard error are assumed to succeed. In the program, `println!`, `print!` and `eprintln!` (`src/main.rs:55`, `65` and `72-76`) panic when a write fails, for example on a closed pipe or a full device, and that panic ends the run, even when there are no arguments. `Run`'s exit clause covers only runs whose writes all succeed.
- `str_to_path` is the identity on the path string, so paths are the map's keys.
