# diskdestroyer, modelled in Dafny

diskdestroyer overwrites files or block devices with a stream of bytes until
the storage refuses more. Each target gets a job on a thread pool. The job
makes a `DataBuffer` of the configured block size. It opens the target and
then writes the buffer over and over until a write fails. Zero bytes or random
bytes are written, depending on the fill policy. This project models:

- the `DataBuffer` and its `DataType` fill policy (`data_buffer.dfy`, module `DataBuffers`);
- the `is_valid_int` validator (`validator.dfy`). It rests on a model of Rust's
  `str::parse::<usize>()` (`parse_int.dfy`). That model is proved against an
  independent description of the language the parse accepts;
- how the block size, fill policy and thread count get their defaults
  (`defaults.dfy`);
- the per-target job: buffer, open, write loop, final message (`worker.dfy`).

`usize` is taken to be 64 bits wide (`native.dfy`). The file is abstract. It
is the outcome of the open plus the finite sequence of outcomes that successive
`write` calls return. The random generator is an arbitrary overwrite of the
buffer (`DataBuffers.FillBytes`). `num_cpus::get()` is a positive parameter.

Three behaviours of the code worth knowing:

- A write that returns `Ok(0)` does not end the loop. Only an `Err` does.
- The spinner's final message is "`<path>: complete`" whatever the write
  error was.
- A malformed `--blocksize` is not rejected by a validator. In the argument
  setup the validator is attached to the `--zero` flag, which takes no value,
  and not to `--blocksize`. The malformed value therefore reaches `.unwrap()`
  and panics. `Defaults.SelectConfig` returns that panic as an `Err`. A
  malformed `--threads` never gets that far, because its validator rejects it
  while the arguments are read.

## Model

| member | source | states |
|---|---|---|
| `ParseInt.ParseUsize` | src/main.rs:54 | the parse succeeds exactly on an optional `+` followed by one or more ASCII digits whose value is at most `usize::MAX`, and then yields that value; it reports `Empty` exactly for the empty string, `InvalidDigit` for a lone sign and for a non-digit (after the optional `+`) reached while the digits before it still fit, and `PosOverflow` as soon as the digits read so far (after the optional `+`) exceed `usize::MAX`, whatever follows them |
| `ParseInt.AccumulateMeaning` | src/main.rs:54 | the checked multiply-and-add digit loop succeeds exactly when every character is a digit and the number fits in a `usize`, yields that number, and fails on all-digit input only by overflow |
| `ParseInt.AccumulateInvalidDigit` | src/main.rs:54 | the digit loop ends with `InvalidDigit` at a non-digit when the digits before it, with the accumulator in front, still fit in a `usize` |
| `ParseInt.AccumulateOverflow` | src/main.rs:54 | once the digits read so far, with the accumulator in front, exceed `usize::MAX`, the digit loop has failed with `PosOverflow`, whatever characters follow |
| `ParseInt.OverflowBeforeInvalidDigit` | src/main.rs:54 | a too-large run of digits followed by a non-digit is reported as `PosOverflow`, with or without a leading `+` |
| `Validator.IsValidInt` | src/main.rs:53-58 | returns `Ok(())` exactly when the string is a `usize` literal; otherwise the error is the parse error's text: "cannot parse integer from empty string" for the empty string, "invalid digit found in string" for a lone sign or a non-digit reached before any overflow, and "number too large to fit in target type" as soon as the digits read so far (after the optional `+`) are too large, whatever follows; so every rejected string's text is fixed |
| `Validator.SignsRejected` | src/main.rs:53-58 | a lone `+` and a `-` sign are rejected as invalid digits, and `+` before a valid literal is accepted |
| `DataBuffers.DataBuffer.constructor` | src/main.rs:26-31 | a new buffer is a fresh array of exactly `len` zero bytes with the given policy |
| `DataBuffers.DataBuffer.NextBytes` | src/main.rs:33-44 | the returned view is the buffer's own array; the array and its length are unchanged, and the policy is a constant of the buffer; under `Zeroes` the contents are unchanged and all zero; the zero-buffer invariant is kept |
| `Defaults.SelectConfig` | src/main.rs:87-100 | for a thread count that passed `is_valid_int` (src/main.rs:72), the block size is 1024 when absent and the parsed value otherwise; the policy is `Zeroes` exactly when the zero flag is present; threads is the CPU count when absent and the parsed value otherwise; the result is the block size's unwrap panic exactly when a given block size does not parse |
| `Worker.StopIndex` | src/main.rs:116 | the loop's stopping point is the position of the first failed write: every earlier write succeeded, and it lies inside any writer that eventually fails |
| `Worker.RunTarget` | src/main.rs:111-126 | an open failure writes nothing and prints "Failed to open `<path>`: `<error>`"; otherwise one write per successful result plus the failing one, `written` is the sum of the successful counts before the first failure, the spinner shows each running total, and the run ends with "`<path>`: complete"; every buffer written has the block size, and is all zero under `Zeroes` |
| `Worker.RunningTotalsMeaning` | src/main.rs:115-119 | each total shown is the sum of the counts so far, the totals never decrease, and the last equals the final total |
| `Worker.SuccessesDoNotStop` | src/main.rs:116 | any stretch of successful writes, zero-byte writes included, is passed over: the stop point moves past it |
| `Worker.TotalBounded` | src/main.rs:116-117 | when no write reports more than the block size, the total is at most one block per write |
| `Worker.ZeroWriteScenario` | src/main.rs:116-121 | after four 1024-byte writes, a zero-byte write does not end the loop; the next failure does, after six calls and 4096 bytes |

## Left out

- The thread pool (`ThreadPool::new`, `execute`, `join`): scheduling and the bound on concurrent workers are concurrency inside a library that is not part of this model. For the same reason, a thread count of zero is not modelled; it is a failure inside that library.
- Progress rendering (`MultiProgress`, `ProgressBar`, `HumanBytes`): only the values given to the spinner (running totals, final message) are modelled, not how they look on screen.
- `OpenOptions::open` and `File::write`: these are OS I/O. They become the open outcome and the sequence of write outcomes.
- `thread_rng` and `fill_bytes`: only "every byte is overwritten by some value" is modelled, not which values.
- The clap argument definitions, and how clap runs validators: these are argument-parsing plumbing in a foreign library. `SelectConfig` takes the raw option strings and the zero flag.
- `to_string_lossy`: the validator and the parse are modelled over Dafny strings.
- Defaults.SelectConfig: requires a given `--threads` value to pass `is_valid_int`, because the validator attached at src/main.rs:72 rejects any other value while the arguments are read, before src/main.rs:98 runs. Argument reading is clap's, so the resulting validation error and exit are not modelled.
- `num_cpus::get()`: a foreign call, taken as the parameter `cpus >= 1`.
- Worker.RunTarget: covers only writers that eventually fail (`requires open.Ok? ==> EventuallyFails(writer)`). A sink that never refuses data keeps the real loop running forever, and such a run is not modelled. This includes a block size of 0, for which every write may return `Ok(0)`.
- Worker.RunTarget: `written` is an unbounded `nat`. The source's `usize` would overflow only after 2^64 bytes, and that overflow is not modelled.
- ParseInt.ParseUsize: a lone `+` or `-` is reported as `InvalidDigit`, as in current Rust releases. Older releases reported a lone `+` as `Empty`. Only the error text differs between the two.
