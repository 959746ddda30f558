# hash.py in Dafny

A model of the core of `hash.py`, a command-line tool that hashes one file with one or with all of
Python's guaranteed hashlib algorithms. It reads the file once, and every chunk read goes to every
requested algorithm. The model covers the following parts of the tool:

- **`hash_check`, the read loop.** A `Reader.FileHandle` class stands for the open file (`file_read`
  is its `Read` method). `HashCheck.HashCheck` creates one accumulator per distinct name, reads
  blocks of `blocksize * 1000` bytes until the first empty read, and feeds each non-empty chunk to
  every accumulator. It counts the loops and writes a progress line every `update_loop` loops,
  then finalises every accumulator into hex. If `os.stat`, `open` or a read raises OSError, the
  except handler runs.
- **hashlib, abstractly.** An accumulator's state is the sequence of bytes it has absorbed. An
  algorithm is known only through a `HashLib.Library` value: the constructors it has, each
  algorithm's digest size, and an uninterpreted output stream of the absorbed bytes.
  `hash_processing` chooses `hexdigest(length)` for names containing "shake" and `hexdigest()` for
  the rest.
- **The rules around the loop.**
  - How many loops are expected, and how often progress is reported.
  - `validate_and_process_args`.
  - The hash list `main` runs with.
  - The `--compare` check.
  - The unit `byte_notation` chooses.

The surroundings of `hash_check` become parameters, collected in a `HashCheck.Disk` value:

- the `st_size` that `os.stat` reports, or that it raises;
- the bytes `open` gives access to, or that it raises;
- which read raises, if any.

`stat` and `contents` are independent on purpose. `os.stat(..., follow_symlinks=False)` reports a
link's own size, and files under `/proc` report 0. So the model allows a file whose size differs
from what `os.stat` says.

Timing is abstracted. `hash_time` and `file_read_time` count the timed intervals that the program
sums into them, in place of seconds.

Modules: `Wrappers` (Option), `Hex`, `HashLib`, `Chunking`, `Progress`, `Reader`, `HashCheck`,
`Args`, `Notation`.

## Model

| member | source | states |
|---|---|---|
| `Hex.Encode` | hash.py:455-459 | a digest is written as lowercase hex, two characters per byte |
| `Hex.Decode` | hash.py:455-459 | even-length lowercase hex decodes to half as many bytes |
| `Hex.DecodeEncode` | hash.py:455-459 | decoding the hex of a digest gives the digest back |
| `Hex.EncodeDecode` | hash.py:455-459 | every even-length lowercase hex text is the hex of the bytes it decodes to |
| `Hex.EncodeInjective` | hash.py:455-459 | two digests have the same hex exactly when they are equal |
| `HashLib.Output` | hash.py:455-459 | the first `n` output bytes of an algorithm on what it absorbed: exactly `n`, byte `i` being the stream's byte `i` |
| `HashLib.ContainsIffOccurs` | hash.py:456 | `'shake' in hash` holds exactly when "shake" occurs at some index of the name, in both directions |
| `HashLib.Finalise` | hash.py:455-459 | names containing "shake" give `2 * length` hex characters and the first `length` output bytes; others give `2 * digest_size` characters and the fixed digest; always lowercase hex |
| `HashLib.ListedHexLength` | hash.py:352-357 | the "Hex Length" column of `--available`: `2 * digest_size` for a name without "shake", `2 * length` for one with it (proved equal to the produced length below) |
| `HashLib.ListedHexLengthIsExact` | hash.py:346-358 | the "Hex Length" column of `--available` is the length of the hex hash_check produces for that name |
| `HashLib.LengthChangesDigest` | hash.py:456-457 | for a "shake" name, two different `--length` values give different hex |
| `HashLib.ShorterDigestIsPrefix` | hash.py:456-457 | for a "shake" name, the hex for a shorter length is a prefix of the hex for a longer one |
| `Chunking.CeilDiv` | hash.py:497 | `file_loops` is the least `r` with `r * read_blocks >= file_size` |
| `Chunking.Chunks` | hash.py:502-513 | the chunks successive `read(read_blocks)` calls return before the first empty read: each the next `min(read_blocks, remaining)` bytes (its properties are the three lemmas below) |
| `Chunking.ChunksConcat` | hash.py:502-517 | the chunks successive reads return join back to the whole file |
| `Chunking.ChunkSizes` | hash.py:481 | every chunk holds between 1 and `read_blocks` bytes, and all but the last hold exactly `read_blocks` |
| `Chunking.ChunkCount` | hash.py:497 | the number of non-empty reads is `ceil(size / read_blocks)` |
| `Progress.UpdateLoop` | hash.py:499 | `update_loop` is at least 1, so the `%` of hash.py:520 is defined; it is 1 below 100 expected loops and `floor(file_loops / 100)` from 100 on |
| `Progress.PercentAsWritten` | hash.py:521 | the percentage as written is undefined (ZeroDivisionError) exactly when `file_loops` is 0 |
| `Progress.ProgressPercent` | hash.py:521 | the guarded percentage equals the original wherever that is defined, is 100 when `file_loops` is 0, and lies in (0, 100] while the loop count is within the estimate |
| `Progress.Sampled` | hash.py:519-523 | the percentage lines written after loops 1..n, one after each loop that is a multiple of `update_loop` (its properties are the lemmas below) |
| `Progress.SampledLoops` | hash.py:519-523 | the lines written are for exactly the loops that are multiples of the step, in increasing order, each with the run's estimate |
| `Progress.SampledCount` | hash.py:519-523 | `n` loops write `n / step` percentage lines |
| `Progress.SampledFirst` | hash.py:519-523 | the first percentage line is written after loop `step` |
| `Progress.ReportBudget` | hash.py:497-499 | a run as long as its estimate writes one line per loop below 100 loops, and between 100 and 199 lines otherwise |
| `Reader.FileHandle.Open` | hash.py:502 | an opened file starts at position 0 with no reads made |
| `Reader.FileHandle.Read` | hash.py:416-427 | a read returns the next `min(size, remaining)` bytes and advances by as many, or raises (OSError) at the faulting read and leaves the position alone; each call counts one read |
| `HashCheck.ShortSource` | hash.py:479-480 | `short_source` is the path below 63 characters, otherwise "..." and its last 60 characters (63 in all) |
| `HashCheck.FirstUnavailable` | hash.py:490-491 | None exactly when hashlib has every listed name; otherwise the first listed name it lacks, whose `getattr` raises |
| `HashCheck.FirstUnavailableAt` | hash.py:490-491 | the constructor that raises is the first missing one in list order |
| `HashCheck.ExceptHandlerAsWritten` | hash.py:531-534 | the handler as written raises UnboundLocalError exactly when `os.stat` failed inside the `hr_dict` literal |
| `HashCheck.ExceptHandler` | hash.py:531-534 | the corrected handler always returns a record with `failure = 1`, a fresh one when nothing was bound, and otherwise the same record as the original handler |
| `HashCheck.StatFailureUnbound` | hash.py:476-482 | the two handlers differ exactly when `os.stat` raised |
| `HashCheck.ZeroStatDividesByZero` | hash.py:497-521 | a non-empty file that `os.stat` calls empty gets `file_loops = 0` and step 1, so its first loop's line divides by zero as written; the guarded percentage writes 100 |
| `HashCheck.CreateAccumulators` | hash.py:489-493 | one fresh accumulator, a zero time and an empty hex for each distinct name and no other key, or the AttributeError of the first missing name |
| `HashCheck.UpdateAll` | hash.py:515-517 | every accumulator absorbs the chunk exactly once and its timer counts one update; no key is added or lost |
| `HashCheck.FinaliseAll` | hash.py:525-528 | every accumulator's hex is its finalisation and its timer counts one more interval; no key is added or lost |
| `HashCheck.LoopExit` | hash.py:508-513 | the loop fails exactly when a read raises before the empty read; the chunks read are the file's first ones (all of them when none failed) and every accumulator has absorbed them |
| `HashCheck.Feed` | hash.py:515-523 | a non-empty chunk extends the chunks read, is absorbed by every accumulator, counts a loop and keeps the progress lines those of the loops so far |
| `HashCheck.Step` | hash.py:504-523 | one pass of the loop either ends it with the loop's final results or keeps the loop's invariant at a strictly later file position |
| `HashCheck.ReadLoop` | hash.py:502-523 | the loop's results: chunks read, absorbed bytes, read count, timer counts and progress lines, including the final 100% line unless a read failed |
| `HashCheck.HashCheck` | hash.py:463-534 | the outcome in each case: stat failure, missing constructor, open failure, read failure, or success. On success every accumulator absorbed the chunks in read order, which join to the whole file; `hash_hex` is each name's finalisation of the file; the keys are exactly the listed names; chunks are at most `read_blocks` bytes; `file_loop == file_loops` when `st_size` is the file's length. Two paths follow the corrected program of "## Findings": an `os.stat` failure returns the corrected handler's record with `failure = 1` (the source raises UnboundLocalError), and a zero `st_size` for a file with data succeeds with guarded `Percent(_, 0)` lines (the source raises ZeroDivisionError at hash.py:521) |
| `Args.Lower` | hash.py:371 | lowercasing keeps the length and maps each character on its own |
| `Args.LowerIdempotent` | hash.py:371-376 | lowercasing a lowercased name changes nothing |
| `Args.HashListIsLowercase` | hash.py:50 | every name of `hash_list` is its own lowercase |
| `Args.Validate` | hash.py:331-383 | the checks come in the source's order: length 1..128, then blocksize 1..1000000, then `--available`, then a named existing file, then (without `--all`) the lowercased name in `hash_list`, then no `--compare` with `--all`. Each rejection, the listing, and proceeding each hold exactly when their conditions do, so arguments passing every check always proceed; the accepted list is all of `hash_list` or the one lowercased name |
| `Args.ExitStatus` | hash.py:331-383 | validation proceeds, or exits with 0 after `--available`, or with 1 on any rejection |
| `Args.ExitStatusOfValidate` | hash.py:331-383 | in terms of the arguments: exit 0 exactly when length and blocksize are in range and `--available` is given; exit 1 exactly when a range fails or, without `--available`, the file is missing, the lowercased name is unlisted without `--all`, or `--compare` comes with `--all`; no exit exactly otherwise |
| `Args.ValidatedNamesListed` | hash.py:370-383 | an accepted list is non-empty and holds only names of `hash_list`, each in lowercase |
| `Args.MainHashListAsWritten` | hash.py:608-611 | the list `main` runs with as written: all of `hash_list` with `--all`, otherwise `[args.hash]` as typed (not lowercased) |
| `Args.MainHashList` | hash.py:608-611 | the corrected list: the one validation accepted |
| `Args.CorrectedListAvailable` | hash.py:370-383 | running hash_check on the validated list never raises AttributeError on a library with the listed constructors |
| `Args.UppercaseHashRaises` | hash.py:608-611 | `--hash SHA256` is accepted as `["sha256"]`, but the list `main` actually runs is `["SHA256"]`, whose constructor is missing; the validated list has none missing |
| `Args.Compare` | hash.py:580-587 | no comparison unless `--compare` is truthy; otherwise a match exactly when the first algorithm's hex equals the text |
| `Args.UppercaseCompareNeverMatches` | hash.py:582 | a compare text containing a character that is no lowercase hex digit never matches a digest |
| `Args.CompareMatchesDigest` | hash.py:582 | the comparison matches exactly when the text is the digest hash_check produced for the first algorithm |
| `Notation.Label` | hash.py:400-406 | the label of a unit: one letter (`B`, `k`, `M`, `G`, `T`), that letter followed by `B` (bytes being `B`), or the nine-letter word ending in "bytes" (`bytes` for the byte unit) |
| `Notation.FirstFit` | hash.py:407-411 | the loop picks the first key with `size < 1000 * key`, every earlier key fails that test, and it falls through only when every key fails |
| `Notation.ByteNotation` | hash.py:400-411 | the unit is a key of `size_dict` with `size < 1000 * key` and no smaller key qualifies; nothing is returned exactly when `size >= 10^15` |
| `Notation.ScaledValueInRange` | hash.py:407-410 | above the byte unit the size is at least its key, so the value written lies in [1, 1000) |
| `Notation.UnitMonotone` | hash.py:407-411 | a larger size never gets a smaller unit |

## Left out

- Console and log output: `bp`, `bp_dict`, the colours, the `--verbose` details and the platform information. This is presentation. The progress lines are kept as `Progress.Report` values, with neither their text nor their rounding.
- Argument parsing (`get_args`) and `sys.exit`. An `Args.Arguments` value is what argparse returns, and `Args.ExitStatus` is the status of the exit.
- The `--available` listing itself, because it is output. Only its hex-length column is modelled (`HashLib.ListedHexLength`).
- The hash algorithms. Digest size and output bytes are uninterpreted (`HashLib.Library`). `block_size` is not modelled.
- Wall-clock timing (`perf_timer`), read and hash speeds, and program overhead time, all in `main`. Their divisions by measured times are floats and are not modelled.
- The float formatting of `byte_notation` and its `acc` argument. Only the unit and its label are modelled. `main` indexes the result of `byte_notation` with `[1]`, which fails when the function returns None (sizes of 10^15 and more); that failure is not modelled.
- What `main` does with a result whose `failure` is 1. After at least one successful read it goes on printing, which is output and timing only. When no read succeeded (the open or the first read raised), `file_read_time` is still `0.0` and hash.py:564 raises ZeroDivisionError; that division is a float timing computation and is not modelled.
- The text of OSError messages. All OSError subclasses are modelled alike as the failing call.
- Args.Lower: lowercases only ASCII letters, while Python's `str.lower` maps all of Unicode (for example KELVIN SIGN to `k`). A non-ASCII name that Python would lowercase into `hash_list` is rejected by the model.
- Chunking.CeilDiv: exact integer ceiling, while the source takes `ceil` of a float quotient. The two can differ only for sizes of about 2^52 bytes and more.
- Progress.UpdateLoop: exact integer floor, while the source truncates the float `file_loops / 100`. The two can differ only for estimates of about 2^46 loops and more.
- Progress.ProgressPercent: a real number. The `:.0f` rounding of the line written is not modelled.
- The error message for `--blocksize` says the range is 1..100000000, but the check (hash.py:338) accepts 1..1000000. The model follows the check.

## Findings

| source | as written | input that shows it | evidently intended | confidence | as-written member | corrected member |
|---|---|---|---|---|---|---|
| hash.py:532 | if `os.stat` raises inside the `hr_dict` literal, `hr_dict` is unbound, and the except handler's own use of `hr_dict` raises UnboundLocalError | `--file` naming a file that is removed after validation and before `hash_check` calls `os.stat` | report the failure (`failure = 1`) as for any other OSError | not executed | `HashCheck.ExceptHandlerAsWritten` (`HashCheck.StatFailureUnbound`) | `HashCheck.ExceptHandler` |
| hash.py:611 | `main` runs with `[args.hash]` as typed, discarding the lowercased list that validation returned (hash.py:608), so `getattr(hashlib, 'SHA256')` raises AttributeError | `--hash SHA256 --file <a file>` | run with the validated list `["sha256"]` | not executed | `Args.MainHashListAsWritten` (`Args.UppercaseHashRaises`) | `Args.MainHashList` (`Args.CorrectedListAvailable`) |
| hash.py:521 | `(file_loop / file_loops) * 100` divides by `file_loops = ceil(st_size / read_blocks)`, which is 0 when `os.stat` reports 0 bytes for a file that has some | `--file /proc/cpuinfo` (size 0, non-empty contents) | write a percentage for a zero estimate as complete | not executed | `Progress.PercentAsWritten` (`HashCheck.ZeroStatDividesByZero`) | `Progress.ProgressPercent` |
