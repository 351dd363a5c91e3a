/**
  The job each target gets from the pool: make a buffer, open the target,
  write the buffer until a write fails, then finish the spinner.

  The file is abstracted as the outcome of the open and the sequence of
  outcomes of successive `write` calls, one entry per call.
 */
module Worker {
  import opened Wrappers
  import opened Native
  import opened DataBuffers

  datatype IoError = IoError(message: string)

  type WriteResult = Result<usize, IoError>

  /** The last thing a target's job shows: the spinner's final message, or a line on stderr. */
  datatype FinalLine = SpinnerFinished(message: string) | OpenFailure(message: string)

  /**
    What one target's job did: the buffer handed to each `write` call, the
    running totals shown on the spinner after each successful write, the
    final total, and the final line.
   */
  datatype TargetRun = TargetRun(offered: seq<seq<byte>>, progress: seq<nat>, written: nat, line: FinalLine)

  /** The writer fails at some point. */
  predicate EventuallyFails(w: seq<WriteResult>)
  {
    exists i :: 0 <= i < |w| && w[i].Err?
  }

  /** The number of leading successful writes: the position of the first failure. */
  function StopIndex(w: seq<WriteResult>): (k: nat)
    ensures k <= |w|
    ensures forall j :: 0 <= j < k ==> w[j].Ok?
    ensures EventuallyFails(w) ==> k < |w| && w[k].Err?
  {
    if w == [] then 0
    else if w[0].Err? then 0
    else
      assert EventuallyFails(w) ==> EventuallyFails(w[1..]) by {
        if EventuallyFails(w) {
          var i :| 0 <= i < |w| && w[i].Err?;
          assert w[1..][i - 1].Err?;
        }
      }
      1 + StopIndex(w[1..])
  }

  /** The bytes a write reports, zero for a failure. */
  function Count(r: WriteResult): nat
  {
    if r.Ok? then r.value else 0
  }

  /** The bytes reported by all the writes of `w`. */
  function Total(w: seq<WriteResult>): nat
  {
    if w == [] then 0 else Total(w[..|w| - 1]) + Count(w[|w| - 1])
  }

  /** The running total after each write of `w`. */
  function RunningTotals(w: seq<WriteResult>): seq<nat>
  {
    if w == [] then [] else RunningTotals(w[..|w| - 1]) + [Total(w)]
  }

  /** The message the spinner finishes with. */
  function CompleteMessage(path: string): string
  {
    path + ": complete"
  }

  /** The line printed on stderr when the target cannot be opened. */
  function OpenFailureMessage(path: string, e: IoError): string
  {
    "Failed to open " + path + ": " + e.message
  }

  /**
    One target's job. The buffer is made before the open. An open failure is
    reported and nothing is written. Otherwise every call writes a fresh
    `next_bytes` view, each successful write (zero bytes included) adds its
    count to the total and continues, and the first failed write ends the loop,
    after which the spinner says "complete" whatever the failure was.
   */
  method RunTarget(path: string, dataType: DataType, bs: usize, open: Result<(), IoError>, writer: seq<WriteResult>)
    returns (run: TargetRun)
    requires open.Ok? ==> EventuallyFails(writer)
    ensures open.Err? ==> run == TargetRun([], [], 0, OpenFailure(OpenFailureMessage(path, open.error)))
    ensures open.Ok? ==>
      var k := StopIndex(writer);
      && |run.offered| == k + 1
      && run.written == Total(writer[..k])
      && run.progress == RunningTotals(writer[..k])
      && run.line == SpinnerFinished(CompleteMessage(path))
    ensures forall b | b in run.offered :: |b| == bs && (dataType == Zeroes ==> AllZero(b))
  {
    var buffer := new DataBuffer(dataType, bs);
    if open.Err? {
      return TargetRun([], [], 0, OpenFailure(OpenFailureMessage(path, open.error)));
    }
    ghost var k := StopIndex(writer);
    var written: nat := 0;
    var offered: seq<seq<byte>> := [];
    var progress: seq<nat> := [];
    var calls := 0;
    var failed := false;
    while !failed
      invariant calls <= k + 1
      invariant failed <==> calls == k + 1
      invariant !failed ==> written == Total(writer[..calls]) && progress == RunningTotals(writer[..calls])
      invariant failed ==> written == Total(writer[..k]) && progress == RunningTotals(writer[..k])
      invariant |offered| == calls
      invariant forall b | b in offered :: |b| == bs && (dataType == Zeroes ==> AllZero(b))
      invariant fresh(buffer) && fresh(buffer.data)
      invariant buffer.Valid() && buffer.dataType == dataType && buffer.data.Length == bs
      decreases k + 1 - calls
    {
      var view := buffer.NextBytes();
      offered := offered + [view[..]];
      var result := writer[calls];
      match result {
        case Ok(bytes) =>
          assert writer[..calls + 1][..calls] == writer[..calls];
          written := written + bytes;
          progress := progress + [written];
        case Err(_) =>
          failed := true;
      }
      calls := calls + 1;
    }
    run := TargetRun(offered, progress, written, SpinnerFinished(CompleteMessage(path)));
  }

  /**
    The spinner shows one total per write; each is the sum of the counts so
    far, so the shown totals never decrease and the last one is the total.
   */
  lemma {:induction false} RunningTotalsMeaning(w: seq<WriteResult>)
    ensures |RunningTotals(w)| == |w|
    ensures forall i :: 0 <= i < |w| ==> RunningTotals(w)[i] == Total(w[..i + 1])
    ensures forall i, j :: 0 <= i <= j < |w| ==> RunningTotals(w)[i] <= RunningTotals(w)[j]
    ensures |w| > 0 ==> RunningTotals(w)[|w| - 1] == Total(w)
  {
    if w != [] {
      var init := w[..|w| - 1];
      RunningTotalsMeaning(init);
      var r := RunningTotals(w);
      assert r == RunningTotals(init) + [Total(w)];
      forall i | 0 <= i < |w| ensures r[i] == Total(w[..i + 1]) {
        if i < |init| {
          assert init[..i + 1] == w[..i + 1];
        } else {
          assert w[..i + 1] == w;
        }
      }
      forall i, j | 0 <= i <= j < |w| ensures r[i] <= r[j] {
        if j == |w| - 1 {
          if i < j {
            assert r[i] <= r[j - 1] by { assert r[i] == RunningTotals(init)[i]; }
            assert init[..|init|] == init;
            assert r[j - 1] == Total(init);
          }
        } else {
          assert r[i] == RunningTotals(init)[i] && r[j] == RunningTotals(init)[j];
        }
      }
    }
  }

  /** Totals add up over consecutive stretches of writes. */
  lemma {:induction false} TotalAppend(u: seq<WriteResult>, w: seq<WriteResult>)
    ensures Total(u + w) == Total(u) + Total(w)
    decreases |w|
  {
    if w == [] {
      assert u + w == u;
    } else {
      var init := w[..|w| - 1];
      assert (u + w)[..|u + w| - 1] == u + init;
      TotalAppend(u, init);
    }
  }

  /**
    Only a failed write stops the loop: any run of successful writes, zero-byte
    ones included, is passed over.
   */
  lemma {:induction false} SuccessesDoNotStop(u: seq<WriteResult>, w: seq<WriteResult>)
    requires forall i :: 0 <= i < |u| ==> u[i].Ok?
    ensures StopIndex(u + w) == |u| + StopIndex(w)
  {
    if u != [] {
      assert (u + w)[1..] == u[1..] + w;
      SuccessesDoNotStop(u[1..], w);
    } else {
      assert u + w == w;
    }
  }

  /** When no write reports more than the buffer's length, the total is at most one buffer per write. */
  lemma {:induction false} TotalBounded(w: seq<WriteResult>, bs: nat)
    requires forall i :: 0 <= i < |w| && w[i].Ok? ==> w[i].value <= bs
    ensures Total(w) <= |w| * bs
  {
    if w != [] {
      var init := w[..|w| - 1];
      TotalBounded(init, bs);
      assert |w| * bs == |init| * bs + bs;
    }
  }

  /**
    A sink of 4096 bytes written in blocks of 1024 that then reports a
    zero-byte write and only fails afterwards: the zero-byte write does not
    end the loop, six writes are attempted, and the total is 4096.
   */
  lemma ZeroWriteScenario(e: IoError)
    ensures var w := [Ok(1024), Ok(1024), Ok(1024), Ok(1024), Ok(0), Err(e)];
      StopIndex(w) == 5 && Total(w[..5]) == 4096
  {
    var block: WriteResult := Ok(1024);
    var w := [block, block, block, block, Ok(0), Err(e)];
    var oks := w[..5];
    assert w == oks + [Err(e)];
    SuccessesDoNotStop(oks, [Err(e)]);
    assert oks == [block, block, block, block] + [Ok(0)];
    assert [block, block, block, block] == [block, block] + [block, block];
    var one: seq<WriteResult> := [block];
    var none: seq<WriteResult> := [];
    assert Total(one) == 1024 by { assert one[..0] == none; }
    assert Total(one + one) == 2048 by { assert (one + one)[..1] == one; }
    assert one + one == [block, block];
    TotalAppend([block, block], [block, block]);
    var zero: seq<WriteResult> := [Ok(0)];
    TotalAppend([block, block, block, block], zero);
    assert zero[..0] == [];
  }
}
