# Fibonacci sequence file

A model of `porting-tutorial/fibonacci/fibonacci.cpp`, which uses a binary file as a
persistent Fibonacci counter. The file is a run of 4-byte unsigned entries with no header.

- `init(path)` makes sure the file holds a starting state. It measures the file's length in
  bytes. If the length is below 2, it removes the file and rewrites it with two entries,
  both equal to 1. Otherwise it leaves the file alone.
- `step(path)` reads the word 8 bytes before the end (`first`) and the word 4 bytes before
  the end (`second`). It appends `first + second`, with `unsigned int` wrap-around, and
  logs the triple.

The model has two modules:

- `Words` (`words.dfy`) holds `unsigned int` values (`uint32`), bytes (`uint8`), wrapping
  addition, and the little-endian 4-byte layout (`EncodeWord` / `DecodeWord`). It also gives
  the list of entries a byte sequence holds (`Entries`) and its inverse (`Serialize`).
  Little-endian is the byte order of WebAssembly memory, which Emscripten targets.
- `Fibonacci` (`fibonacci.dfy`) specifies the contents each routine leaves as pure
  functions: `InitContents`, `StepReport` and `StepContents`. The class `SequenceFile` holds
  the file's bytes in a `contents` field. Its `Init` and `Step` methods update that field
  in place, and each method is proved to follow the matching function. Lemmas relate the
  functions to the entry view and to the Fibonacci numbers.

Points where the model makes a choice about the code:

- **Reset threshold.** The comment on `init` (fibonacci.cpp:33-34) promises that afterwards
  the file holds enough entries for a step, which is 8 bytes. The test at line 42 is
  `end - begin < 2`, a count of bytes. The model keeps 2. So a file of 2 to 7 bytes passes
  `init` unchanged, and the next `step` then fails (`ShortFileSurvivesInit`).
- **Open mode of `init`.** The first open in `init` uses `ios::out` alone. Under standard C++
  that open would truncate the file, and then every `init` would reset it. The comment at
  line 44 says the target filesystem cannot truncate, and the size test only makes sense if
  the contents survive the open. The model therefore treats that open as non-truncating.
- **Alignment.** `step` reads the last 8 bytes whatever the length is modulo 4, and the model
  does the same on the exact bytes. Only the lemmas about entries (`StepEntries`,
  `StepPreservesRecurrence`, …) assume a whole number of entries.
- **Failure.** Under the exception mask set at line 15, a failed stream operation throws. In
  the model, `step` on fewer than 8 bytes returns `Err(SeekBeforeStart)` and leaves the
  contents unchanged. On a missing file the open at line 14 fails (it has no create flag), so
  `step` fails before any seek. The model sees a missing file as one with no contents, so it
  reports the same single error kind there, and nothing is written in either case. `init`
  treats a missing file like an empty one.

## Model

| member | source | states |
|---|---|---|
| `Words.AddWrap` | porting-tutorial/fibonacci/fibonacci.cpp:24 | the `unsigned int` sum is the exact sum or the exact sum minus 2^32, and it is exact iff the exact sum is below 2^32 |
| `Words.EncodeWord` | porting-tutorial/fibonacci/fibonacci.cpp:27 | writing an entry puts 4 bytes in the file, and decoding those bytes gives the entry back |
| `Words.DecodeWord` | porting-tutorial/fibonacci/fibonacci.cpp:20-22 | the `unsigned int` read from 4 bytes has byte k as its base-256 digit k (little-endian); `EncodeWord` and `EncodeDecode` prove it is the inverse of the encoding |
| `Words.EncodeDecode` | porting-tutorial/fibonacci/fibonacci.cpp:20-22 | any 4 bytes read into an `unsigned int` re-encode to the same 4 bytes, so decoding is injective and the layout loses nothing |
| `Words.Serialize` | porting-tutorial/fibonacci/fibonacci.cpp:17-27 | the file layout: no header, entries of 4 bytes each back to back, so a list of entries takes exactly 4 bytes per entry; `EntriesSerialize` and `SerializeEntries` prove it is the inverse of `Entries` |
| `Words.Entries` | porting-tutorial/fibonacci/fibonacci_worker.js:14-26 | reading a whole-entry file 4 bytes at a time gives length/4 entries |
| `Words.EntriesAt` | porting-tutorial/fibonacci/fibonacci_worker.js:14-26 | entry i is the word stored at bytes [4i, 4i+4) |
| `Words.LastTwoEntries` | porting-tutorial/fibonacci/fibonacci.cpp:19-22 | in a whole-entry file of at least two entries, the words 8 and 4 bytes before the end are the last two entries |
| `Words.EntriesAppend` | porting-tutorial/fibonacci/fibonacci.cpp:26-27 | appending the bytes of one word to a whole-entry file appends exactly that entry |
| `Words.EntriesSerialize` | porting-tutorial/fibonacci/fibonacci_worker.js:14-26 | reading back the bytes of a list of entries gives the same list |
| `Words.SerializeEntries` | porting-tutorial/fibonacci/fibonacci_worker.js:14-26 | every whole-entry file is the byte image of its own entries |
| `Fibonacci.WriteAt` | porting-tutorial/fibonacci/fibonacci.cpp:48-51 | a write at a put position overwrites exactly the bytes it covers, grows the file only if it runs past the end, and keeps every byte before and after |
| `Fibonacci.WriteAtEnd` | porting-tutorial/fibonacci/fibonacci.cpp:26-27 | a write after `seekp(0, ios::end)` is an append |
| `Fibonacci.InitContents` | porting-tutorial/fibonacci/fibonacci.cpp:35-54 | under 2 bytes: the result is exactly the bytes 1,0,0,0,1,0,0,0, i.e. the entries (1, 1); 2 bytes or more: the contents are unchanged; afterwards the file always has at least 2 bytes |
| `Fibonacci.StepReport` | porting-tutorial/fibonacci/fibonacci.cpp:12-24 | fails with a seek error iff the file has fewer than 8 bytes; otherwise the result is the wrapping sum of the two words read |
| `Fibonacci.StepContents` | porting-tutorial/fibonacci/fibonacci.cpp:12-31 | on failure the contents are unchanged; on success the file grows by exactly 4 bytes, every earlier byte stays, and the new word is the wrapping sum of the words at [n-8, n-4) and [n-4, n) |
| `Fibonacci.SequenceFile.Init` | porting-tutorial/fibonacci/fibonacci.cpp:35-54 | the new contents are `InitContents` of the old ones, built by removing the file and writing the entry 1 at offsets 0 and 4; a file of 2 bytes or more is left untouched |
| `Fibonacci.SequenceFile.Step` | porting-tutorial/fibonacci/fibonacci.cpp:12-31 | the returned triple is `StepReport` of the old contents, the new contents are `StepContents` of the old ones, and the old contents are a prefix of the new |
| `Fibonacci.InitIdempotent` | porting-tutorial/fibonacci/fibonacci.cpp:35-54 | running `init` twice gives the same contents as running it once |
| `Fibonacci.ShortFileSurvivesInit` | porting-tutorial/fibonacci/fibonacci.cpp:39-42 | a file of 2 to 7 bytes is left unchanged by `init`, and the following `step` fails and changes nothing |
| `Fibonacci.StepReportsWords` | porting-tutorial/fibonacci/fibonacci.cpp:17-30 | the logged triple is the word at [n-8, n-4), the word at [n-4, n) and the word `step` appended |
| `Fibonacci.FirstStep` | porting-tutorial/fibonacci/fibonacci.cpp:12-54 | from a missing file, `init` writes 1,0,0,0,1,0,0,0, and one `step` reports 1 + 1 = 2 and appends 2,0,0,0 |
| `Fibonacci.StepEntries` | porting-tutorial/fibonacci/fibonacci.cpp:19-27 | on a whole-entry file, `step` keeps whole entries and appends the wrapping sum of the last two entries |
| `Fibonacci.StepPreservesRecurrence` | porting-tutorial/fibonacci/fibonacci.cpp:10-24 | if every entry from index 2 on is the wrapping sum of the two before it, that still holds after `step` |
| `Fibonacci.FibWrap` | porting-tutorial/fibonacci/fibonacci.cpp:24 | the wrapping sum of Fib(i+1) mod 2^32 and Fib(i+2) mod 2^32 is Fib(i+3) mod 2^32 |
| `Fibonacci.StepExtendsFibEntries` | porting-tutorial/fibonacci/fibonacci.cpp:19-27 | a file whose k >= 2 entries are Fib(1..k) mod 2^32 gets Fib(k+1) mod 2^32 appended by `step` |
| `Fibonacci.StepsFromSeeds` | porting-tutorial/fibonacci/fibonacci.cpp:10-31 | n steps on a file holding the entries (1, 1) give 2 + n whole entries, entry i being Fib(i+1) mod 2^32 |
| `Fibonacci.InitThenSteps` | porting-tutorial/fibonacci/fibonacci.cpp:10-54 | `init` on a missing or near-empty file followed by n steps gives 2 + n whole entries, entry i being Fib(i+1) mod 2^32 |

## Left out

- Logging: the `EM_ASM` call to `console.log` (line 30) is a host-runtime call. `Step` returns the `(first, second, result)` triple instead.
- File handles: opening, closing, stream positions and `remove(path)` are not modelled as such. The file is only its byte contents. `remove` followed by a reopen means the contents become empty.
- I/O failures other than the short-file seek (open, write or close failing, a full disk, missing permissions) are not modelled. Neither is the partial state a failed write would leave. `Init` and a `Step` on 8 or more bytes always succeed in the model.
- The worker script `fibonacci_worker.js` is host glue: mounting the filesystem, message dispatch and `postMessage`. Its read loop (lines 14-26) appears only through `Words.Entries`, which covers files of whole entries. The worker's handling of a trailing partial word is not modelled.
- Concurrency: callers on the same path are not serialised by the code, and concurrent calls are out of scope.
