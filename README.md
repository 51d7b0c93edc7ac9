# Click counter service: a Dafny model

This project models the core of a small Java HTTP service
(`src/main/java/org/example/Main.java`). The service keeps one click counter,
an `AtomicInteger`. It persists the counter as decimal text in the file
`count.txt` and reloads it at startup. It serves two contexts:

- `/` (`MyHttpHandler`) sends the page `index.html`, or a 404 text when the page is missing.
- `/button-click` (`ButtonClickHandler`) answers a CORS preflight for `OPTIONS`. It counts a
  click for `POST` and refuses every other method with 405.

Modules, one per component:

- `Int32` (`int32.dfy`): Java's 32-bit `int`, its range and its two's-complement wrap-around.
  `Wrap` keeps an int in range and otherwise adds or subtracts 2^32 until it is. `Inc` is
  `incrementAndGet`'s arithmetic: one more, except that `MAX` is followed by `MIN`. `IncN`
  is `k` such increments in a row.
- `Decimal` (`decimal.dfy`): `String.valueOf(int)` as `ValueOf` and `Integer.parseInt` as
  `ParseInt`, with the round trip between them.
- `Http` (`http.dfy`): a response is a status, the headers in the order they were added, the
  length passed to `sendResponseHeaders` (-1 for "no body") and the body bytes.
- `RootHandler` (`root_handler.dfy`): the `/` handler. The page file is an input:
  `None` when it does not exist, else its bytes.
- `ButtonClick` (`button_click.dfy`): the three responses of `/button-click`. An `Answer`
  records which one the handler chose; `Render` turns it into the response.
- `CounterStore` (`counter_store.dfy`): the record (`None` when `count.txt` does not exist,
  else its text), `readLine`, `loadCountFromFile` (`LoadCount`) and `saveCountToFile`.
  `ButtonClickStep` is the handler as a function of the store's state. The class `Counter`
  holds the mutable counter and record. Its constructor is the startup load, and its methods
  `IncrementAndGet`, `SaveCount` and `HandleButtonClick` change its fields in place. Each
  method is proved against the functions above.
- `ServiceRuns` (`service_runs.dfy`): requests handled one after another (`Serve`), and what
  runs of them promise.

Choices:

- The counter wraps like Java's `int`: a `POST` at `2147483647` answers `-2147483648`. No
  precondition forbids reaching `MAX`.
- How the write of `count.txt` ends is an input to the request (`WriteOutcome`). It either
  completes, or fails to open (the file is untouched), or fails after the open. In the last case
  `new FileWriter(path, false)` has already emptied the file, so it holds only a prefix of the
  text, possibly none of it. An emptied file loads as 0. A file cut short after some digits holds
  a shorter number, and the next start resumes from it (a failed save of 123 that keeps 2
  characters leaves 12). For a negative count the cut record can load above the count: a failed
  save of -12 that keeps 2 characters leaves "-1", which loads as -1, and one that keeps 1
  character leaves "-", which loads as 0. In every case the counter still advances and the
  answer is unchanged.
- One might expect the counter never to be negative. The code does not enforce that:
  `Integer.parseInt` accepts a leading `-`, and the increment wraps to negative values. The
  model follows the code.
- One might expect the record's whole content to be the number. The code parses only
  the first line (`readLine`) and ignores the rest. The model follows the code
  (`LoadIgnoresLaterLines`).

## Model

| member | source | states |
|---|---|---|
| `Int32.Wrap` | src/main/java/org/example/Main.java:90 | the result is a 32-bit int, and an int already in range is kept |
| `Int32.WrapOffset` | src/main/java/org/example/Main.java:90 | the wrapped int is the input plus a whole multiple of 2^32 |
| `Int32.WrapCongruent` | src/main/java/org/example/Main.java:90 | the wrapped int differs from the input by a multiple of 2^32 |
| `Int32.WrapUnique` | src/main/java/org/example/Main.java:90 | the wrap is the only 32-bit int congruent to the input modulo 2^32 |
| `Int32.WrapThenAdd` | src/main/java/org/example/Main.java:90 | adding to a wrapped int and wrapping again is the same as adding first and wrapping once |
| `Int32.IncWraps` | src/main/java/org/example/Main.java:90 | `incrementAndGet`'s step (`Inc`: MAX is followed by MIN) is the 32-bit wrap of value + 1 |
| `Int32.IncNWraps` | src/main/java/org/example/Main.java:90 | k increments in a row from v land on the 32-bit wrap of v + k |
| `Decimal.ValueOf` | src/main/java/org/example/Main.java:91 | `String.valueOf` gives non-empty text of digits with a leading '-' exactly when the number is negative |
| `Decimal.ParseInt` | src/main/java/org/example/Main.java:128 | `Integer.parseInt` only ever yields a value in the 32-bit range |
| `Decimal.ParseValueOf` | src/main/java/org/example/Main.java:111 | parsing the text written for n gives n back when n fits 32 bits, and fails otherwise |
| `Decimal.ValueOfInjective` | src/main/java/org/example/Main.java:111 | two different counts are never written as the same text |
| `Decimal.DigitsValueOfNatDigits` | src/main/java/org/example/Main.java:91 | the digits printed for a natural number denote that number |
| `CounterStore.LineText` | src/main/java/org/example/Main.java:127 | the first line is the longest prefix without '\n' or '\r': it is a prefix, holds no terminator, and ends at the text's end or at a terminator |
| `CounterStore.LoadCount` | src/main/java/org/example/Main.java:118-133 | loading always yields a 32-bit int |
| `CounterStore.ReadLine` | src/main/java/org/example/Main.java:127-128 | no line (null) exactly when the text is empty; otherwise the text before the first terminator |
| `CounterStore.SavedRecord` | src/main/java/org/example/Main.java:106-115 | after a completed save, loading yields the saved count; a save that fails to open leaves the record unchanged; one that fails after opening leaves a prefix of the count's text, as long as the characters kept up to the whole text |
| `CounterStore.CutShortRecordLoadsPrefix` | src/main/java/org/example/Main.java:110-128 | a save of a non-negative count that fails after writing only some of its digits leaves a record that loads as the number those digits denote, which is at most the count |
| `Decimal.DigitsValuePrefix` | src/main/java/org/example/Main.java:111 | a prefix of the written digits never denotes more than the whole text |
| `CounterStore.EmptiedRecordLoadsZero` | src/main/java/org/example/Main.java:110-128 | a save that fails after opening with nothing written leaves a record that loads as 0 |
| `CounterStore.LoadSaved` | src/main/java/org/example/Main.java:106-133 | loading a record written by the save for n yields n (a value outside 32 bits would read as 0) |
| `CounterStore.LoadIgnoresLaterLines` | src/main/java/org/example/Main.java:127-128 | loading uses the first line only: the parsed line, or 0 when it does not parse, whatever follows the terminator |
| `CounterStore.LoadCorruptIsZero` | src/main/java/org/example/Main.java:122-131 | an empty record, or one starting with neither a digit nor a sign, loads as 0 |
| `CounterStore.LineTextOfSingleLine` | src/main/java/org/example/Main.java:127 | text without a line terminator is its own first line |
| `CounterStore.ButtonClickStep` | src/main/java/org/example/Main.java:75-102 | OPTIONS: preflight, store unchanged; POST: counter becomes `Inc` of the value (the 32-bit wrap of value + 1, by `Int32.IncWraps`), the answer is that count, and the record is what the save leaves (exactly the count's text when the write completes); other methods: 405, store unchanged |
| `CounterStore.StartState` | src/main/java/org/example/Main.java:25-26 | the contract states that the startup counter is a 32-bit int and the record is the file as found; by definition the counter is `LoadCount` of that record, and `ColdStartPosts`, `RestartPosts` and `WritesKeepRecordCurrent` prove what a restart then resumes from |
| `CounterStore.Counter.Start` | src/main/java/org/example/Main.java:25-26 | the new store's counter is `LoadCount` of the persisted record |
| `CounterStore.Counter.IncrementAndGet` | src/main/java/org/example/Main.java:90 | the counter becomes `Inc` of the old value (the 32-bit wrap of old value + 1, by `Int32.IncWraps`) and that value is returned; the record is untouched |
| `CounterStore.Counter.SaveCount` | src/main/java/org/example/Main.java:106-115 | the record becomes what `SavedRecord` gives: opening empties it, a completed write replaces it by the count's decimal text, a failed open leaves it; the counter stays a 32-bit int |
| `CounterStore.Counter.HandleButtonClick` | src/main/java/org/example/Main.java:75-102 | the new counter and record, and the response sent, are those of `ButtonClickStep` rendered as HTTP |
| `ButtonClick.PreflightResponse` | src/main/java/org/example/Main.java:76-82 | 204, no body, and exactly the headers Allow-Origin `*`, Allow-Methods `POST, OPTIONS`, Allow-Headers `Content-Type` in that order |
| `ButtonClick.NotAllowedResponse` | src/main/java/org/example/Main.java:99-101 | 405, no headers, no body |
| `Http.AsciiBytes` | src/main/java/org/example/Main.java:97 | `getBytes()` of ASCII text gives one byte per character, equal to its code |
| `ButtonClick.CountResponse` | src/main/java/org/example/Main.java:85-98 | 200, the Allow-Origin `*` header, a declared length equal to the body length, and a body that is exactly the decimal text `String.valueOf` gives for the count, so it parses back to the count |
| `ButtonClick.Render` | src/main/java/org/example/Main.java:75-102 | every response the handler sends declares a length consistent with its body |
| `ButtonClick.CountResponseInjective` | src/main/java/org/example/Main.java:91-97 | different counts give different responses |
| `RootHandler.HandleRoot` | src/main/java/org/example/Main.java:50-69 | status 200 exactly when the page exists; then `Content-Type: text/html` and the page's exact bytes; else 404 with body text "404 (Not Found)\n"; in both cases the declared length equals the body length |
| `ServiceRuns.Serve` | src/main/java/org/example/Main.java:75-102 | handling requests in order gives one answer per request and keeps the counter a 32-bit int |
| `ServiceRuns.PostsIncrement` | src/main/java/org/example/Main.java:90 | k POSTs from value v give exactly the answers `Counts(v, k)` (the count after each increment, in order) and leave v after k increments |
| `ServiceRuns.CountsWrap` | src/main/java/org/example/Main.java:90 | the i-th answer of `Counts(v, k)` is the count given by the 32-bit wrap of v + i + 1 |
| `ServiceRuns.PostsCountUp` | src/main/java/org/example/Main.java:90 | k POSTs from value v answer the 32-bit wraps of v+1, ..., v+k in order and leave the wrap of v+k |
| `ServiceRuns.ColdStartPosts` | src/main/java/org/example/Main.java:20-26 | with no record at startup, k POSTs answer 1, 2, ..., k |
| `ServiceRuns.RestartPosts` | src/main/java/org/example/Main.java:25-26 | after a restart from a record saved for n, k POSTs (below MAX) answer n+1, ..., n+k |
| `ServiceRuns.OnlyPostsChangeStore` | src/main/java/org/example/Main.java:76-101 | OPTIONS and other non-POST requests leave counter and record unchanged and answer preflight or 405 |
| `ServiceRuns.WritesKeepRecordCurrent` | src/main/java/org/example/Main.java:90-92 | while every write completes the record stays the counter's text, so a restart restores exactly the current counter |
| `ServiceRuns.FailedWriteInvisible` | src/main/java/org/example/Main.java:110-114 | however the write ends, the answer and the new count are those of a completed write; a failed open leaves the record unchanged |

## Left out

- Server creation, binding port 8080, the default executor and `server.start()` (Main.java:29-40): socket and thread plumbing.
- Routing request paths to the `/` and `/button-click` contexts (Main.java:33, 36): that is the HTTP library's work. The handler is taken as given.
- Concurrency: `AtomicInteger.incrementAndGet` is one sequential step, and requests are handled one after another. The atomicity of the increment belongs to the Java library.
- Real file and stream I/O: `FileWriter`, `BufferedReader`, `Files.readAllBytes` and `OutputStream` are replaced by the record field, the page input and the response value. An `IOException` while reading an existing `count.txt` has no input here. Its outcome, 0, is the same as for a parse failure.
- When index.html exists but cannot be read, `Files.readAllBytes` (Main.java:62) throws out of the `/` handler and no response is sent. `RootHandler.HandleRoot` takes the page as present with its bytes or absent, and has no case for a page that cannot be read.
- `printStackTrace` logging and the console message: no observable effect on state or responses.
- Character encodings: the record is modelled as characters. The default charset of `FileReader`/`FileWriter` is not modelled. Bodies of ASCII text are one byte per character.
- Decimal.ParseInt: accepts only the ASCII digits '0'..'9'. Java's `Character.digit` also accepts the decimal digits of other Unicode scripts, so a record written in such digits would load as 0 here.
- Headers the HTTP library adds itself (Date, Content-length, Transfer-encoding), and what a declared length of 0 means to it (chunked transfer).
- The request body of a POST is ignored by the source and has no place in the model.
