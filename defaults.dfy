/**
  How `main` turns the parsed command line into the run's settings: block
  size, fill policy and thread count, each with its default.
 */
module Defaults {
  import opened Wrappers
  import opened Native
  import opened ParseInt
  import opened DataBuffers
  import opened Validator

  /** The block size used when `--blocksize` is absent. */
  const DEFAULT_BLOCK_SIZE: usize := 1024

  datatype Config = Config(blockSize: usize, dataType: DataType, threads: usize)

  /** The panic of `.unwrap()` on a failed parse, naming the option it came from. */
  datatype Panic = UnwrapFailed(option: string, kind: IntErrorKind)

  /** `Some(val) => val.parse::<usize>().unwrap()`, `None => default`. */
  function ValueOr(option: string, value: Option<string>, default: usize): Result<usize, Panic>
  {
    match value
    case None => Ok(default)
    case Some(text) =>
      match ParseUsize(text)
      case Ok(n) => Ok(n)
      case Err(k) => Err(UnwrapFailed(option, k))
  }

  /**
    The default selection. `cpus` stands for `num_cpus::get()`, which is
    never zero. A `--threads` value has already passed `is_valid_int` when
    the arguments were read, so its `.unwrap()` cannot fail; `--blocksize`
    has no validator, so a malformed block size panics here.
   */
  function SelectConfig(blocksize: Option<string>, zero: bool, threads: Option<string>, cpus: usize)
    : (r: Result<Config, Panic>)
    requires cpus >= 1
    requires threads.None? || IsValidInt(threads.value) == Ok(())
    ensures r.Ok? <==> blocksize.None? || IsUsizeLiteral(blocksize.value)
    ensures r.Ok? ==> r.value.blockSize == if blocksize.None? then 1024 else LiteralValue(blocksize.value)
    ensures r.Ok? ==> (r.value.dataType == Zeroes <==> zero)
    ensures r.Ok? ==> r.value.threads == if threads.None? then cpus else LiteralValue(threads.value)
    ensures r.Ok? && threads.None? ==> r.value.threads >= 1
    ensures r.Err? ==> r == Err(UnwrapFailed("blocksize", ParseUsize(blocksize.value).error))
  {
    match ValueOr("blocksize", blocksize, DEFAULT_BLOCK_SIZE)
    case Err(p) => Err(p)
    case Ok(bs) =>
      var policy := if zero then Zeroes else Random;
      var t := match threads
        case None => cpus
        case Some(text) => ParseUsize(text).value;
      Ok(Config(bs, policy, t))
  }
}
