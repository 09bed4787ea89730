/** Capturing what a child process prints while it runs (src/lib/platform/wsl_host.cpp). Between any two calls of the
    parent the child may take any number of its own steps. */
module PipeCapture {
  import opened Results
  import opened Units

  const READ_CHUNK: nat := 8192
  const POLL_SLICE_MS: nat := 50

  // What becomes of one call on a pipe: it works, a read perhaps with fewer bytes than were asked for, or it fails or
  // reads nothing.
  datatype PipeCall = Works(some: nat) | Fails

  /** One stream: what the parent has of it, what waits in the pipe, and what the child has still to write. */
  class Pipe {
    const capacity: nat
    var captured: Bytes
    var buffered: Bytes
    var unwritten: Bytes

    constructor (capacity: nat, script: Bytes)
      ensures this.capacity == capacity && captured == [] && buffered == [] && unwritten == script
    {
      this.capacity := capacity;
      captured, buffered, unwritten := [], [], script;
    }

    /** All of the stream, in order. No step of either side changes it. */
    ghost function Whole(): Bytes
      reads this
    {
      captured + (buffered + unwritten)
    }

    ghost function Left(): nat
      reads this
    {
      |buffered| + |unwritten|
    }

    /** The child has more to write and no room for it. */
    predicate Full()
      reads this
    {
      unwritten != [] && |buffered| >= capacity
    }

    /** The child writes one byte, if it has one and there is room. */
    method Write()
      modifies this`buffered, this`unwritten
      ensures Whole() == old(Whole()) && Left() == old(Left()) && |buffered| >= |old(buffered)|
      ensures captured == old(captured) && |unwritten| <= |old(unwritten)|
      ensures old(unwritten) != [] && !old(Full()) ==> |unwritten| < |old(unwritten)|
    {
      if unwritten != [] && |buffered| < capacity {
        assert buffered + unwritten == (buffered + unwritten[..1]) + unwritten[1..];
        buffered, unwritten := buffered + unwritten[..1], unwritten[1..];
      }
    }

    /** ReadFile: at least one byte and at most `wanted` when it works. What is read is captured. */
    method Read(wanted: nat, call: PipeCall) returns (count: nat)
      requires 0 < wanted <= |buffered|
      modifies this`captured, this`buffered
      ensures Whole() == old(Whole()) && Left() == old(Left()) - count && |captured| == |old(captured)| + count
      ensures old(captured) <= captured
      ensures count > 0 <==> call.Works?
    {
      count := if call.Fails? then 0 else if 0 < call.some < wanted then call.some else wanted;
      TakingKeepsOrder(captured, buffered, count, unwritten);
      captured, buffered := captured + buffered[..count], buffered[count..];
    }
  }

  lemma TakingKeepsOrder(captured: Bytes, buffered: Bytes, count: nat, unwritten: Bytes)
    requires count <= |buffered|
    ensures captured + buffered[..count] + (buffered[count..] + unwritten) == captured + (buffered + unwritten)
  {
  }

  /** A run of `wsl.exe` between its two output pipes, and what becomes of every call on them and every wait, one after
      the other. An eager child runs during a wait until it is stopped by a full pipe or has exited. */
  class Run {
    const out: Pipe
    const err: Pipe
    const pipeCalls: nat -> PipeCall
    const waitWorks: nat -> bool
    const codeIsKnown: bool
    const eager: bool
    var exited: bool
    var killed: bool
    var calls: nat
    var waits: nat

    constructor (out: Pipe, err: Pipe, pipeCalls: nat -> PipeCall, waitWorks: nat -> bool, codeIsKnown: bool, eager: bool)
      requires out != err
      ensures this.out == out && this.err == err && this.pipeCalls == pipeCalls && this.waitWorks == waitWorks
      ensures this.codeIsKnown == codeIsKnown && this.eager == eager && !exited && !killed && calls == 0 && waits == 0
    {
      this.out, this.err, this.pipeCalls, this.waitWorks, this.codeIsKnown := out, err, pipeCalls, waitWorks, codeIsKnown;
      this.eager := eager;
      exited, killed, calls, waits := false, false, 0, 0;
    }

    /** No call on a pipe from the `from`-th on failed. */
    ghost predicate NoneFailed(from: nat, to: nat) {
      forall k | from <= k < to :: pipeCalls(k).Works?
    }

    ghost predicate Valid()
      reads this, out, err
    {
      out != err && (exited ==> out.unwritten == [] && err.unwritten == [])
    }

    /** Nothing was lost, invented or reordered since. */
    twostate predicate Conserved()
      reads this, out, err
    {
      && out.Whole() == old(out.Whole()) && err.Whole() == old(err.Whole())
      && out.Left() <= old(out.Left()) && err.Left() <= old(err.Left())
      && |out.unwritten| <= |old(out.unwritten)| && |err.unwritten| <= |old(err.unwritten)|
      && old(out.captured) <= out.captured && old(err.captured) <= err.captured
      && (old(exited) ==> exited) && old(calls) <= calls
    }

    /** Any number of steps of the child: it writes to either stream in any order, as long as there is room, and may exit
        once it has written everything. */
    method ChildSteps()
      requires Valid()
      modifies out`buffered, out`unwritten, err`buffered, err`unwritten, this`exited
      ensures Valid() && Conserved()
      ensures out.Left() == old(out.Left()) && err.Left() == old(err.Left())
      ensures |out.buffered| >= |old(out.buffered)| && |err.buffered| >= |old(err.buffered)|
    {
      var steps: int := *;
      while steps > 0
        invariant Valid() && Conserved()
        invariant out.Left() == old(out.Left()) && err.Left() == old(err.Left())
        invariant |out.buffered| >= |old(out.buffered)| && |err.buffered| >= |old(err.buffered)|
      {
        steps := steps - 1;
        var which: int := *;
        if which == 0 && out.unwritten == [] && err.unwritten == [] {
          exited := true;
        } else if which == 1 {
          out.Write();
        } else {
          err.Write();
        }
      }
    }

    /** What the child does during a wait. */
    method WaitForChild()
      requires Valid()
      modifies out`buffered, out`unwritten, err`buffered, err`unwritten, this`exited
      ensures Valid() && Conserved()
      ensures out.Left() == old(out.Left()) && err.Left() == old(err.Left())
      ensures eager ==> exited || out.Full() || err.Full()
    {
      ChildSteps();
      if !eager {
        return;
      }
      while !exited && !out.Full() && !err.Full()
        invariant Valid() && Conserved()
        invariant out.Left() == old(out.Left()) && err.Left() == old(err.Left())
        decreases |out.unwritten| + |err.unwritten| + if exited then 0 else 1
      {
        if out.unwritten != [] {
          out.Write();
        } else if err.unwritten != [] {
          err.Write();
        } else {
          exited := true;
        }
      }
    }

    /** How much the child has still to write. */
    ghost function Unwritten(): nat
      reads out, err
    {
      |out.unwritten| + |err.unwritten|
    }

    /** What the smaller pipe holds. */
    function Capacity(): nat {
      Min(out.capacity, err.capacity)
    }

    /** PeekNamedPipe: how much is buffered. It fails when it is told to, and once the child is gone and the pipe is
        empty. */
    method Peek(pipe: Pipe) returns (ok: bool, available: nat)
      requires pipe in {out, err}
      modifies this`calls
      ensures calls == old(calls) + 1 && available == |pipe.buffered|
      ensures ok <==> pipeCalls(old(calls)).Works? && !(exited && pipe.buffered == [])
    {
      available := |pipe.buffered|;
      ok := pipeCalls(calls).Works? && !(exited && pipe.buffered == []);
      calls := calls + 1;
    }

    /** One peek and one read, with the child going on meanwhile. There is no more when the pipe is empty or a call
        failed. */
    method ReadSome(pipe: Pipe) returns (more: bool)
      requires Valid() && pipe in {out, err}
      modifies this`exited, this`calls, out, err
      ensures Valid() && Conserved() && calls > old(calls)
      ensures more ==> pipe.Left() < old(pipe.Left())
      ensures !more ==> pipe.buffered == [] || pipeCalls(calls - 1).Fails?
    {
      ChildSteps();
      var ok, available := Peek(pipe);
      if !ok || available == 0 {
        return false;
      }
      ChildSteps();
      var read := pipe.Read(Min(available, READ_CHUNK), pipeCalls(calls));
      calls := calls + 1;
      more := read > 0;
    }

    /** Reads what is buffered, until there is nothing or a call fails. It ends although the child goes on meanwhile, which
        has only so much to write. */
    method Drain(pipe: Pipe)
      requires Valid() && pipe in {out, err}
      modifies this`exited, this`calls, out, err
      ensures Valid() && Conserved()
      ensures NoneFailed(old(calls), calls) ==> pipe.buffered == []
    {
      var more := true;
      while more
        invariant Valid() && Conserved()
        invariant !more ==> pipe.buffered == [] || !NoneFailed(old(calls), calls)
        decreases more, pipe.Left()
      {
        more := ReadSome(pipe);
      }
    }

    /** Both pipes drained: what was in them when it began is captured. */
    method DrainBoth()
      requires Valid()
      modifies this`exited, this`calls, out, err
      ensures Valid() && Conserved()
      ensures NoneFailed(old(calls), calls) ==>
                && out.Left() <= |old(out.unwritten)| && err.Left() <= |old(err.unwritten)|
                && (old(exited) ==> out.Left() == 0 && err.Left() == 0)
    {
      Drain(out);
      Drain(err);
    }

    /** One pass of the loop. If no call on a pipe fails and the child is eager, it either exits or fills a pipe with bytes
        that it had still to write. */
    method DrainAndWait()
      requires Valid()
      modifies this`exited, this`calls, out, err
      ensures Valid() && Conserved()
      ensures eager && NoneFailed(old(calls), calls) && !exited ==> Unwritten() + Capacity() <= old(Unwritten())
    {
      DrainBoth();
      WaitForChild();
    }

    /** Waits for the child and captures what it prints, for `timeout` milliseconds at most. A success holds exactly what
        the child printed, in order, on each stream, if no call on a pipe failed; one that did can only cut the end off.
        There is no success without an exit, and no failure but for a wait that failed, a timeout, or an exit code that is
        not known. No full pipe can stop the child for long: if no call on a pipe fails, an eager child exits after no more
        waits than it fills the smaller pipe, and one, so it never runs into a timeout that is long enough for them. The child
        is killed on a timeout and never otherwise. */
    method Capture(timeout: nat) returns (result: Result<(Bytes, Bytes)>)
      requires Valid() && out.captured == [] && err.captured == [] && !killed
      modifies this, out, err
      ensures Valid() && Conserved() && waits > old(waits)
      ensures result.Ok? ==> result.value == (out.captured, err.captured) && exited
      ensures result.Ok? ==> result.value.0 <= old(out.Whole()) && result.value.1 <= old(err.Whole())
      ensures result.Ok? && NoneFailed(old(calls), calls) ==> result.value == (old(out.Whole()), old(err.Whole()))
      ensures killed ==> result.Err? && !exited && (waits - old(waits)) * 50 >= timeout
      ensures result.Err? ==> killed || !waitWorks(waits - 1) || (exited && !codeIsKnown)
      ensures (waits - old(waits) - 1) * 50 < timeout || waits == old(waits) + 1
      ensures eager && NoneFailed(old(calls), calls) ==>
                (waits - old(waits) - 1) * Capacity() <= old(out.Left() + err.Left())
      ensures eager && NoneFailed(old(calls), calls) && waitWorks(waits - 1) ==>
                timeout * Capacity() <= old(out.Left() + err.Left()) * 50 || exited
    {
      var remaining := timeout;
      ghost var all := out.Left() + err.Left();
      ghost var rounds := 0;
      while true
        invariant Valid() && Conserved() && !killed
        invariant waits == old(waits) + rounds && remaining == timeout - rounds * POLL_SLICE_MS
        invariant rounds == 0 || remaining > 0
        invariant eager && NoneFailed(old(calls), calls) ==> rounds * Capacity() + Unwritten() <= all
        decreases remaining, if rounds == 0 then 1 else 0
      {
        ghost var before := calls;
        DrainAndWait();
        NoneFailedBefore(old(calls), before, calls);
        OneRoundMore(rounds, Capacity());
        var slice := Min(remaining, POLL_SLICE_MS);
        waits, rounds := waits + 1, rounds + 1;
        if !waitWorks(waits - 1) {
          return Err(Generic);
        }
        if exited {
          break;
        }
        if remaining <= slice {
          killed := true;
          TimeoutWasShort(rounds, Capacity(), all, timeout);
          return Err(Generic);
        }
        remaining := remaining - slice;
      }
      // What was written between the last drain and the exit is still in the pipes.
      ghost var before := calls;
      DrainBoth();
      NoneFailedBefore(old(calls), before, calls);
      AllIsCaptured(out);
      AllIsCaptured(err);
      if !codeIsKnown {
        return Err(Generic);
      }
      result := Ok((out.captured, err.captured));
    }

    /** A stream of which nothing is left has been captured whole; of any other, a beginning has. */
    lemma AllIsCaptured(pipe: Pipe)
      ensures pipe.captured <= pipe.Whole()
      ensures pipe.Left() == 0 ==> pipe.captured == pipe.Whole()
    {
    }

    lemma NoneFailedBefore(from: nat, middle: nat, to: nat)
      requires from <= middle <= to
      ensures NoneFailed(from, to) ==> NoneFailed(from, middle) && NoneFailed(middle, to)
    {
    }
  }

  lemma OneRoundMore(rounds: nat, capacity: nat)
    ensures (rounds + 1) * capacity == rounds * capacity + capacity
  {
  }

  /** So many rounds without an exit fill a timeout only if it is short for the output. */
  lemma TimeoutWasShort(rounds: nat, capacity: nat, all: nat, timeout: nat)
    requires rounds * POLL_SLICE_MS >= timeout
    ensures rounds * capacity <= all ==> timeout * capacity <= all * POLL_SLICE_MS
  {
    if rounds * capacity <= all {
      assert timeout * capacity <= rounds * POLL_SLICE_MS * capacity by {
        assert (rounds * POLL_SLICE_MS - timeout) * capacity >= 0;
      }
      assert rounds * POLL_SLICE_MS * capacity == rounds * capacity * POLL_SLICE_MS;
    }
  }
}
