# KERN_PROCARGS2 decoder model

On macOS, `SysCall.args(pid)` reads a process's command line with
`sysctl(KERN_PROCARGS2)` and decodes the bytes the kernel hands back. The buffer
holds, in order:

- the argument count `argc` as four little-endian bytes;
- the executable path;
- NUL padding;
- `argc` NUL-terminated arguments;
- NUL-separated `KEY=VALUE` environment lines.

This project models the decoding half of that function, the body from the
buffer in hand to `Args(path, args, env)` or `.failure(.args)`, and proves what
it does.

Modules:

- `Bytes` (`bytes.dfy`) defines bytes and the Swift collection operations the
  decoder uses:
  - `prefix(while:)`, as `PrefixWhileNonNull`;
  - `drop(while:)`, as `DropWhileNull`;
  - `split(separator: 0)`, which omits empty runs, as `SplitOnNull`;
  - the split of an environment line at its first `=`, as `SplitOnceAtEquals`.
- `Utf8` (`utf8.dfy`) defines UTF-8 well-formedness, following the UTF8-octets
  grammar of section 4 of RFC 3629. It stands for the condition under which
  Foundation's `String(bytes:encoding: .utf8)` succeeds.
- `SysCallTypes` (`types.dfy`) holds the result types as datatypes. They have
  no operations of their own, so they have no rows in the table below:
  - `Error` is the `SysCall.Error` enum (Sources/SysCall/SysCall.swift:6-10),
    with the cases `Rv`, `Wrapped` and `ArgsError`;
  - `Result` is Swift's `Result<_, SysCall.Error>`;
  - `Args` is the `SysCall.Args` record (lines 12-16): the path, the arguments
    and the environment. Strings are kept as their UTF-8 bytes.
- `ProcArgsSpec` (`proc_args_spec.dfy`) is the decoder as a function,
  `ProcArgs`, built from one function per step:
  - `Count` is the `reduce` over the reversed first four bytes, with the
    `UInt32` shift written out;
  - `ParseArgs` is the counted argument loop;
  - `ParseEnv` is the environment loop.

  The module also proves what these steps compute.
- `SysCall` (`syscall.dfy`) is the decoder as the Swift code runs it. It is a
  method with a `remaining` cursor that is reassigned step by step, a counted
  `for` loop that appends the arguments, and a call to `ReadEnvironment`.
  `ReadEnvironment` is the loop over the split runs that updates the
  environment map. `DecodeArgs` is proved to compute exactly `ProcArgs`, and
  `ReadEnvironment` exactly `EnvFromRegion`.
- `ProcArgsEncoding` (`encoding.dfy`) builds a buffer from its parts, the way
  the kernel lays it out. It proves that decoding such a buffer gives the parts
  back, and what happens when the first argument is empty.

Where the format's documented intent and the code differ, the model follows
the code:

- **Empty environment runs never end the environment.** The `line.isEmpty`
  `break` (lines 75-77) cannot fire, because `split(separator: 0)` drops empty
  runs. Doubled and trailing NULs are skipped, and every later run is still
  parsed. The branch is kept in `ParseEnv` and `ReadEnvironment`.
  `EnvFromRegionIsEnvOf` and `EnvRegionSkipsEmptyRuns` prove it is dead.
- **The path terminator is not checked.** A buffer of at least 6 bytes that
  ends inside a null-free, valid UTF-8 path decodes successfully when the
  count is 0; a path that is not valid UTF-8 fails with `.args` as usual. It gives that
  path, no arguments and an empty environment. For example, the bytes
  `00 00 00 00 61 62` decode to the path `ab`. With a non-zero count, the first
  argument finds no terminator and the decode fails: `01 00 00 00 61 62` fails
  (`UnterminatedPath`).
- **An empty first argument is not read back.** The `drop(while:)` after the
  path swallows its terminator as padding. The statements below are for a
  second argument that is absent or non-empty; then every later argument moves
  up one place, and the loop reads one string more than was written. (With k
  empty arguments at the front, all k terminators are swallowed and the later
  strings move up k places; this case is not stated as a lemma.)
  - When an environment line follows the arguments, that line is read as the
    last argument and is missing from the environment
    (`EmptyFirstArgumentShifts`).
  - When no environment line follows, there are later arguments and at least
    one NUL of slack follows them, that NUL is read as an empty last argument.
    The environment is then empty. For example,
    `02 00 00 00 70 00 00 62 00 00` decodes to the arguments `b` and the empty
    string.
  - When no environment line follows and either there is no later argument or
    no slack, the decode fails (`EmptyFirstArgumentNoEnvironment`).

## Model

| member | source | states |
|---|---|---|
| SysCall.DecodeArgs | Sources/SysCall/SysCall.swift:45-91 | The cursor-and-loops decoder returns exactly `ProcArgs(data)`: the same result or the same failure on every buffer. So every property below holds of it. |
| SysCall.ReadEnvironment | Sources/SysCall/SysCall.swift:73-90 | The loop over the split runs returns exactly `EnvFromRegion(region)`: the same map or the same failure. So `EnvFromRegionIsEnvOf` holds of it. |
| ProcArgsSpec.ProcArgs | Sources/SysCall/SysCall.swift:45-91 | A buffer shorter than 6 bytes fails with `.args` whatever its contents. Every failure of the decoder is `.args`. |
| ProcArgsSpec.Reversed | Sources/SysCall/SysCall.swift:49 | `reversed()` keeps the length and puts element `i` at position `len - 1 - i`. |
| ProcArgsSpec.ShiftOr | Sources/SysCall/SysCall.swift:51 | One step of `$0 << 8 \| UInt32($1)` on a `UInt32` stays below 2^32 and puts the byte in the low 8 bits. |
| ProcArgsSpec.FoldShiftOr | Sources/SysCall/SysCall.swift:49-52 | The `reduce` of the shift-or step never leaves the `UInt32` range. |
| ProcArgsSpec.Count | Sources/SysCall/SysCall.swift:49-52 | `count32` is a `UInt32`, below 2^32. Its value is given by `CountIsLittleEndian`. |
| ProcArgsSpec.CountIsLittleEndian | Sources/SysCall/SysCall.swift:49-52 | The count is `b0 + 256*b1 + 65536*b2 + 16777216*b3` over the first four bytes, and so is below 2^32. |
| ProcArgsEncoding.LE32 | Sources/SysCall/SysCall.swift:49-52 | The little-endian count header is four bytes long. |
| ProcArgsEncoding.CountOfLE32 | Sources/SysCall/SysCall.swift:49-52 | Reading back the four little-endian bytes of any `n < 2^32` gives `n`: the fold inverts the encoding. |
| Bytes.PrefixWhileNonNull | Sources/SysCall/SysCall.swift:54 | `prefix(while: { $0 != 0 })` is a null-free prefix of the input. When it stops short of the end, the next byte is a NUL. |
| Bytes.PrefixStopsAtNul | Sources/SysCall/SysCall.swift:54 | The null-free prefix of `a + [0] + b` is the null-free prefix of `a`, whatever `b` is. |
| Bytes.PrefixOfNullFree | Sources/SysCall/SysCall.swift:62 | A null-free string is read whole as its own prefix. |
| Bytes.DropWhileNull | Sources/SysCall/SysCall.swift:59 | `drop(while: { $0 == 0 })` removes a run of NULs only, and what is left is empty or starts with a non-NUL byte. |
| Bytes.DropZeros | Sources/SysCall/SysCall.swift:59 | Any number of leading NULs is dropped exactly, and the rest is kept whole. |
| Bytes.SplitOnNull | Sources/SysCall/SysCall.swift:74 | `split(separator: 0)` yields only non-empty null-free runs. |
| Bytes.SplitConcat | Sources/SysCall/SysCall.swift:74 | Splitting `a + [0] + b` is splitting `a`, then `b`. A NUL only separates runs. |
| Bytes.SplitTrailingZeros | Sources/SysCall/SysCall.swift:74 | Trailing NULs add no run. |
| Bytes.SplitAllNul | Sources/SysCall/SysCall.swift:74 | A region of NULs only splits into no runs. |
| Bytes.SplitTerminated | Sources/SysCall/SysCall.swift:74 | Non-empty null-free strings, each followed by a NUL, split back into exactly those strings. |
| Bytes.SplitOnceAtEquals | Sources/SysCall/SysCall.swift:81-85 | Splitting at most once at `=` gives two parts exactly when the line has an `=`. The key is then `=`-free, and key, `=` and value make up the line. Otherwise the result is the whole line. |
| Bytes.SplitOnceAtEqualsOf | Sources/SysCall/SysCall.swift:81-85 | A line built as `=`-free key, `=`, value splits back into that key and that value. The value may hold further `=`. |
| Bytes.TerminatedNulCount | Sources/SysCall/SysCall.swift:60-72 | Each terminated string contributes a NUL, and exactly one when the strings are null-free. |
| Utf8.ValidUtf8 | Sources/SysCall/SysCall.swift:55 | `String(bytes:encoding: .utf8)` succeeds on the empty byte string, which the path, an argument or a value may be. Lines 63 and 78 use the same test. |
| Utf8.ValidFromBytes | Sources/SysCall/SysCall.swift:55 | Any all-ASCII bytes decode. Bytes that decode never hold 0xC0, 0xC1 or any byte from 0xF5 to 0xFF. |
| Utf8.CharLengthAt | Sources/SysCall/SysCall.swift:55 | A character recognised at index `i` fits in the buffer and is at most 4 bytes long. |
| Utf8.ConcatValid | Sources/SysCall/SysCall.swift:55 | Two well-formed UTF-8 texts laid side by side are well-formed. |
| Utf8.SplitAtAscii | Sources/SysCall/SysCall.swift:78-85 | A well-formed text cut at an ASCII byte such as `=` is well-formed on both sides. So splitting at the byte `=` gives valid key and value strings. |
| ProcArgsSpec.ParseArgs | Sources/SysCall/SysCall.swift:60-72 | The counted argument loop fails only with `.args`. |
| ProcArgsSpec.ParseArgsShape | Sources/SysCall/SysCall.swift:60-72 | On success the loop appends exactly `count` arguments in buffer order, each null-free UTF-8. The bytes it read are those arguments, each with one terminator, followed by the unread rest. |
| ProcArgsSpec.ArgsOkAt | Sources/SysCall/SysCall.swift:63-65 | Every argument the loop accepted is null-free and valid UTF-8. |
| ProcArgsSpec.ParseArgsOfTerminated | Sources/SysCall/SysCall.swift:60-72 | Conversely, any null-free UTF-8 strings, each with its terminator, are read back exactly, and the rest is left unread. |
| ProcArgsSpec.TerminatedStep | Sources/SysCall/SysCall.swift:62-71 | One loop round on a terminated string reads that string and resumes right after its NUL. |
| ProcArgsSpec.ParseArgsNulCount | Sources/SysCall/SysCall.swift:60-72 | A successful loop of `n` rounds needs at least `n` NULs in its input. |
| ProcArgsSpec.ParseArgsTooFewNuls | Sources/SysCall/SysCall.swift:68-70 | With fewer NULs than rounds left, the loop fails with `.args` and never returns a shorter list. |
| ProcArgsSpec.ProcArgsTooFewNuls | Sources/SysCall/SysCall.swift:60-72 | A buffer whose count exceeds the NULs after the count header fails with `.args`. |
| ProcArgsSpec.LinesOkAt | Sources/SysCall/SysCall.swift:78-88 | The loop accepts a list of runs exactly when every run is UTF-8 with an `=`. |
| ProcArgsSpec.LinesOkConcat | Sources/SysCall/SysCall.swift:74-90 | Acceptance of two lists of runs together is acceptance of each. |
| ProcArgsSpec.EntryOf | Sources/SysCall/SysCall.swift:81-89 | An accepted line is its key, `=` and value, and the key holds no `=`. |
| ProcArgsSpec.Entries | Sources/SysCall/SysCall.swift:74-90 | Each accepted line gives one entry. |
| ProcArgsSpec.EntriesConcat | Sources/SysCall/SysCall.swift:74-90 | The entries of two lists of lines are those of the first list, then those of the second. |
| ProcArgsSpec.EntryOfLineOk | Sources/SysCall/SysCall.swift:78-89 | An accepted null-free line gives a null-free UTF-8 key without `=` and a null-free UTF-8 value. |
| ProcArgsSpec.EntriesOk | Sources/SysCall/SysCall.swift:78-89 | Every entry from accepted null-free lines is well-formed. |
| ProcArgsSpec.EnvOf | Sources/SysCall/SysCall.swift:89 | The reference meaning of `env[key] = value` over the entries in order: the last entry's key is always bound to the last entry's value. |
| ProcArgsSpec.EnvOfLastWriteWins | Sources/SysCall/SysCall.swift:89 | The environment's keys are exactly the entries' keys. Each key is bound to the value of its last entry. |
| ProcArgsSpec.EnvOfConcat | Sources/SysCall/SysCall.swift:89 | When two lists of entries follow each other, the later list's bindings win. |
| ProcArgsSpec.EnvOfKeepsEntryOk | Sources/SysCall/SysCall.swift:89 | Building the map from well-formed entries binds only well-formed keys to well-formed values. |
| ProcArgsSpec.ParseEnv | Sources/SysCall/SysCall.swift:73-90 | The environment loop fails only with `.args`. |
| ProcArgsSpec.ParseEnvIsEnvOf | Sources/SysCall/SysCall.swift:73-90 | Over non-empty runs the loop fails exactly when a run is not UTF-8 or has no `=`. Otherwise it adds the last-write-wins map of all the entries to the map built so far. |
| ProcArgsSpec.EnvFromRegion | Sources/SysCall/SysCall.swift:73-90 | The split and the environment loop over the bytes after the last argument. The only failure is `.args`. |
| ProcArgsSpec.EnvFromRegionIsEnvOf | Sources/SysCall/SysCall.swift:73-90 | The `break` never fires. The environment is the last-write-wins map of every run after the last argument, or `.args` when one run is malformed. No partial map is returned. |
| ProcArgsSpec.EnvFromRegionOk | Sources/SysCall/SysCall.swift:73-90 | Every decoded binding has a null-free UTF-8 key without `=` and a null-free UTF-8 value. |
| ProcArgsSpec.EnvRegionConcat | Sources/SysCall/SysCall.swift:74-90 | Two regions joined by a NUL decode as both regions, with the later one's bindings winning. A malformed run in either one fails the whole decode. |
| ProcArgsSpec.EnvRegionSkipsEmptyRuns | Sources/SysCall/SysCall.swift:74-77 | Doubled, leading and trailing NULs in the environment region change nothing. |
| ProcArgsSpec.PathLayout | Sources/SysCall/SysCall.swift:53-59 | After the count come the path, a run of NULs and the argument region. The path may lack its terminator only when nothing follows it. |
| ProcArgsSpec.FirstStringNonEmpty | Sources/SysCall/SysCall.swift:59-62 | When the argument region left by the NUL skip starts with a non-NUL byte, the first argument read from it is non-empty. An empty region holds no arguments and no environment. |
| ProcArgsSpec.AfterCountLayout | Sources/SysCall/SysCall.swift:53-72 | On success, the bytes after the count are path, padding, the `count` terminated arguments and the environment region. All the padding NULs are skipped and the first argument is non-empty. |
| ProcArgsSpec.DecodedLayout | Sources/SysCall/SysCall.swift:45-91 | A successful decode has the following properties: the buffer has at least 6 bytes; `args` has exactly `count32` elements; the buffer is laid out as count, path, padding, terminated arguments and environment region; the environment is decoded from that region; the path and every argument are null-free UTF-8; and every key is `=`-free. |
| ProcArgsEncoding.EntryLine | Sources/SysCall/SysCall.swift:81-89 | An entry's `KEY=VALUE` line holds an `=`. |
| ProcArgsEncoding.EntryLineWellFormed | Sources/SysCall/SysCall.swift:78-80 | The line of a well-formed entry is null-free UTF-8. |
| ProcArgsEncoding.EntriesOfLines | Sources/SysCall/SysCall.swift:74-89 | The loop accepts the lines of well-formed entries and splits them back into the same entries. |
| ProcArgsEncoding.EncodeLength | Sources/SysCall/SysCall.swift:46-48 | An encoded buffer holds at least the header, the path, the padding and one byte per argument. |
| ProcArgsEncoding.RoundTrip | Sources/SysCall/SysCall.swift:45-91 | Take a header for `argc`, a null-free UTF-8 path, at least one padding NUL, null-free UTF-8 arguments with a non-empty first one, `=`-free keys, and any tail padding. The resulting buffer decodes to that path, those arguments and the last-write-wins map of the entries. The only exception is a buffer under 6 bytes, which fails. A buffer with no padding is covered by `UnterminatedPath`. |
| ProcArgsEncoding.RoundTripNonEmpty | Sources/SysCall/SysCall.swift:45-91 | With at least one argument the buffer always passes the length guard and decodes back into its parts. |
| ProcArgsEncoding.TerminatedConcat | Sources/SysCall/SysCall.swift:60-72 | Terminating two lists one after the other is terminating their concatenation. |
| ProcArgsEncoding.ShiftedEncodings | Sources/SysCall/SysCall.swift:58-72 | The buffer for an empty first argument is byte for byte the buffer with one more padding NUL, the remaining arguments followed by the first environment line, and the other entries. |
| ProcArgsEncoding.EmptyFirstArgumentShifts | Sources/SysCall/SysCall.swift:58-91 | With at least one environment line and a second argument that is absent or non-empty, an encoded empty first argument is lost. The later arguments are returned, followed by the first environment line, and that line's binding is missing from the environment. |
| ProcArgsEncoding.EmptyFirstArgumentNoEnvironment | Sources/SysCall/SysCall.swift:58-91 | With no environment line and a second argument that is absent or non-empty, an encoded empty first argument is also lost. With later arguments and at least one trailing NUL, the later arguments come back followed by an empty last argument, and the environment is empty. Otherwise the decode fails with `.args`. |
| ProcArgsEncoding.UnterminatedPath | Sources/SysCall/SysCall.swift:46-61 | A buffer that ends inside a null-free UTF-8 path decodes to that path with no arguments and an empty environment when the count is 0. It fails with `.args` when the count is non-zero or the buffer is under 6 bytes. |

## Left out

- Fetching the buffer is not part of this model. That covers `argsData`, which
  calls `sysctlbyname("kern.argmax")` and `sysctl(KERN_PROCARGS2)`
  (Sources/SysCall/SysCall.swift:94-120), and the `do`/`catch` that maps its
  errors to `.rv` and `.error` (lines 37-44). The model starts from the bytes
  `argsData` returns. The decoder itself only ever produces `.args`.
- `kinfo` and `ppid` (lines 18-33) are not modelled. They are a single foreign
  `sysctl` call into an opaque kernel struct, and a field read.
- `SysCallTypes.Error`: the payload of `.error(Swift.Error)` is an arbitrary
  thrown error and is modelled as the bare case `Wrapped`.
- Foundation's `String(bytes:encoding: .utf8)` is modelled as RFC 3629
  well-formedness only. Any further Foundation behaviour is not part of this
  model, such as its treatment of a byte-order mark. A decoded string is kept
  as the bytes it was decoded from.
- `Bytes.SplitOnceAtEquals`: it splits at the first byte `0x3D`. Swift splits
  the `String` at the first `Character` equal to `"="`. These differ when the
  `=` is part of a larger grapheme cluster, because Swift does not split there.
  That happens when the `=` is followed by a combining mark, a zero-width joiner
  or a spacing mark (rules GB9 and GB9a of Unicode Standard Annex #29). It also
  happens when the `=` follows a Prepend character such as U+0600 (rule GB9b).
- `ProcArgsSpec.EnvOf`: keys are compared as bytes. Swift's `String` keys
  compare by canonical equivalence, so two byte-different but canonically
  equivalent keys would share one binding in Swift.
- Dictionary iteration order is not modelled. The environment is a `map`.
- 32-bit sizes: the loop bound `count32` is modelled as an unbounded natural
  number fed by a value below 2^32 (`CountIsLittleEndian`). No other integer
  width matters to the decoder.
