/** The loops and the descriptor handling of `execute_command`, one thread at a time. The operating
    system is a set of objects whose calls may be interrupted, move part of the data, or fail. */
module Process {

  import opened Base
  import Pump

  /** What `read` or `write` returns. */
  datatype CallResult = Moved(n: nat) | Interrupted | Failed

  // ---------- read_from_fd ----------

  /** The read end of a pipe: what will still come out of it before end of file. */
  class ReadEnd {
    var rest: Text
    var interrupts: nat  // how many calls a signal can still interrupt
    var failed: bool

    constructor (rest: Text, interrupts: nat)
      ensures this.rest == rest && this.interrupts == interrupts && !failed
    {
      this.rest, this.interrupts, failed := rest, interrupts, false;
    }

    method Read(limit: nat) returns (r: CallResult, data: Text)
      requires limit > 0
      modifies this
      ensures r.Moved? ==> r.n <= limit && r.n <= |old(rest)| && (r.n == 0 <==> |old(rest)| == 0)
      ensures r.Moved? ==> data == old(rest)[..r.n] && rest == old(rest)[r.n..]
      ensures !r.Moved? ==> rest == old(rest)
      ensures if r.Interrupted? then interrupts < old(interrupts) else interrupts == old(interrupts)
      ensures failed == (old(failed) || r.Failed?)
    {
      data := [];
      if {
        case interrupts > 0 =>
          interrupts := interrupts - 1;
          r := Interrupted;
        case true =>
          failed := true;
          r := Failed;
        case |rest| == 0 =>
          r := Moved(0);
        case |rest| > 0 =>
          var n :| 0 < n && n <= limit && n <= |rest|;
          data, rest := rest[..n], rest[n..];
          r := Moved(n);
      }
    }
  }

  /** Collect until end of file or an error; what is collected and what is left are the whole stream,
      so at end of file the text is complete, however the reads were cut up and interrupted. */
  method ReadFromFd(fd: ReadEnd) returns (content: Text)
    requires !fd.failed
    modifies fd
    ensures content + fd.rest == old(fd.rest)
    ensures !fd.failed ==> content == old(fd.rest)
  {
    content := [];
    while true
      invariant !fd.failed && content + fd.rest == old(fd.rest)
      decreases |fd.rest| + fd.interrupts
    {
      ghost var before := fd.rest;
      var bytesRead, buffer := fd.Read(Pump.READ_CHUNK);
      if bytesRead == Moved(0) {
        break;
      }
      if !bytesRead.Moved? {
        if bytesRead.Interrupted? {
          continue;
        }
        break;
      }
      assert before == buffer + fd.rest;
      Associative(content, buffer, fd.rest);
      content := content + buffer;
    }
  }

  // ---------- write_all_to_fd ----------

  /** The write end of a pipe, with all that has been written to it. */
  class WriteEnd {
    var taken: Text
    var interrupts: nat
    var failed: bool

    constructor (interrupts: nat)
      ensures taken == [] && this.interrupts == interrupts && !failed
    {
      taken, this.interrupts, failed := [], interrupts, false;
    }

    method Write(data: Text) returns (r: CallResult)
      requires |data| > 0
      modifies this
      ensures r.Moved? ==> 0 < r.n <= |data| && taken == old(taken) + data[..r.n]
      ensures !r.Moved? ==> taken == old(taken)
      ensures if r.Interrupted? then interrupts < old(interrupts) else interrupts == old(interrupts)
      ensures failed == (old(failed) || r.Failed?)
    {
      if {
        case interrupts > 0 =>
          interrupts := interrupts - 1;
          r := Interrupted;
        case true =>
          failed := true;
          r := Failed;
        case true =>
          var n :| 0 < n <= |data|;
          taken := taken + data[..n];
          r := Moved(n);
      }
    }
  }

  /** Hand over the text in partial writes; only an error stops it early, and then a prefix has gone. */
  method WriteAllToFd(fd: WriteEnd, content: Text)
    requires !fd.failed
    modifies fd
    ensures old(fd.taken) <= fd.taken && fd.taken[|old(fd.taken)|..] <= content
    ensures !fd.failed ==> fd.taken == old(fd.taken) + content
  {
    var written := 0;
    while written < |content|
      invariant !fd.failed && 0 <= written <= |content|
      invariant fd.taken == old(fd.taken) + content[..written]
      decreases |content| - written + fd.interrupts
    {
      var result := fd.Write(content[written..]);
      if !result.Moved? {
        if result.Interrupted? {
          continue;
        }
        break;
      }
      assert content[..written] + content[written..][..result.n] == content[..written + result.n];
      written := written + result.n;
    }
  }

  // ---------- wait_for_process ----------

  datatype WaitResult = Running | Ended(status: Pump.Status) | WaitFailed

  const POLL_INTERVAL: nat := 25

  /** The child as its parent sees it, and the clock in milliseconds. */
  class ChildProcess {
    var ended: Option<Pump.Status>
    var reaps: nat
    var kills: nat
    var now: nat
    var failed: bool  // whether a wait has failed

    constructor ()
      ensures ended == None && reaps == 0 && kills == 0 && !failed
    {
      ended, reaps, kills, now, failed := None, 0, 0, 0, false;
    }

    /** The child may end of its own at any time before the call looks. */
    method WaitPid(blocking: bool) returns (r: WaitResult)
      requires blocking ==> ended.Some?
      modifies this
      ensures now == old(now) && kills == old(kills)
      ensures old(ended).Some? ==> ended == old(ended)
      ensures r.Ended? ==> ended == Some(r.status) && reaps == old(reaps) + 1
      ensures !r.Ended? ==> reaps == old(reaps)
      ensures r.Running? ==> !blocking
      ensures failed == (old(failed) || r.WaitFailed?)
    {
      if {
        case ended.None? =>
          var code: nat :| true;
          ended := Some(Pump.Exited(code));
        case true =>
      }
      if {
        case ended.Some? =>
          reaps := reaps + 1;
          r := Ended(ended.value);
        case ended.None? =>
          r := Running;
        case true =>
          failed := true;
          r := WaitFailed;
      }
    }

    method Kill()
      modifies this
      ensures kills == old(kills) + 1 && reaps == old(reaps) && now == old(now) && failed == old(failed)
      ensures ended == if old(ended).Some? then old(ended) else Some(Pump.Signaled(Pump.SIGKILL))
    {
      kills := kills + 1;
      if ended.None? {
        ended := Some(Pump.Signaled(Pump.SIGKILL));
      }
    }

    method Sleep(milliseconds: nat)
      modifies this
      ensures now == old(now) + milliseconds
      ensures ended == old(ended) && reaps == old(reaps) && kills == old(kills) && failed == old(failed)
    {
      now := now + milliseconds;
    }
  }

  /** Poll until the child has ended or the deadline has passed, and kill in the latter case. A call
      that returns has reaped the child exactly once; a call throws exactly if a wait failed, and has not
      reaped it then. */
  method WaitForProcess(child: ChildProcess, timeout: nat) returns (r: Result<Pump.Status, WaitResult>, timedOut: bool)
    requires !child.failed
    modifies child
    ensures r.Err? <==> child.failed
    ensures r.Ok? ==> child.reaps == old(child.reaps) + 1 && child.ended == Some(r.value)
    ensures r.Err? ==> child.reaps == old(child.reaps) && r.error.WaitFailed?
    ensures child.kills == old(child.kills) + (if timedOut then 1 else 0)
    ensures timedOut ==> child.now >= old(child.now) + timeout
  {
    var deadline := child.now + timeout;
    timedOut := false;
    while true
      invariant !timedOut && !child.failed && child.reaps == old(child.reaps) && child.kills == old(child.kills)
      decreases deadline - child.now
    {
      var result := child.WaitPid(false);
      if result.Ended? {
        return Ok(result.status), timedOut;
      }
      if result.WaitFailed? {
        return Err(result), timedOut;
      }
      if child.now >= deadline {
        timedOut := true;
        child.Kill();
        result := child.WaitPid(true);
        if result.WaitFailed? {
          return Err(result), timedOut;
        }
        return Ok(result.status), timedOut;
      }
      child.Sleep(POLL_INTERVAL);
    }
  }

  // ---------- descriptors ----------

  datatype PipeEnd = PipeEnd(pipe: nat, writes: bool)

  /** The parent's descriptor table. Closing demands an open descriptor, so none is closed twice. */
  class Descriptors {
    var open: map<int, PipeEnd>
    var next: int
    var pipes: nat

    ghost predicate Valid()
      reads this
    {
      next >= 0 && forall fd :: fd in open ==> 0 <= fd < next && open[fd].pipe < pipes
    }

    constructor ()
      ensures Valid() && open == map[]
    {
      open, next, pipes := map[], 0, 0;
    }

    /** `pipe`: two new descriptors, the first to read from, or an error that leaves the array at its
        initial value. */
    method Pipe(ok: bool) returns (ends: (int, int))
      requires Valid()
      modifies this
      ensures Valid() && pipes == old(pipes) + (if ok then 1 else 0)
      ensures ok ==> ends.0 != ends.1 && ends.0 >= 0 && ends.1 >= 0 && {ends.0, ends.1} !! old(open).Keys
      ensures ok ==> open == old(open) + Ends(ends, old(pipes))
      ensures !ok ==> ends == (-1, -1) && open == old(open)
    {
      if !ok {
        return (-1, -1);
      }
      ends := (next, next + 1);
      open := open + Ends(ends, pipes);
      next, pipes := next + 2, pipes + 1;
    }

    method Close(fd: int)
      requires Valid() && (fd >= 0 ==> fd in open)
      modifies this
      ensures Valid() && pipes == old(pipes) && open == old(open) - {fd}
    {
      if fd >= 0 {
        open := open - {fd};
      }
    }

    method CloseBoth(ends: (int, int))
      requires Valid() && (ends.0 >= 0 ==> ends.0 in open) && (ends.1 >= 0 ==> ends.1 in open)
      requires ends.0 >= 0 ==> ends.0 != ends.1
      modifies this
      ensures Valid() && pipes == old(pipes) && open == old(open) - {ends.0, ends.1}
    {
      Close(ends.0);
      Close(ends.1);
    }
  }

  function Ends(ends: (int, int), pipe: nat): map<int, PipeEnd> {
    map[ends.0 := PipeEnd(pipe, false), ends.1 := PipeEnd(pipe, true)]
  }

  datatype LaunchError = EmptyArguments | PipeCreationFailed | ForkFailed

  /** The pipe ends that the child has as its standard descriptors. */
  datatype ChildEnds = ChildEnds(stdin: PipeEnd, stdout: PipeEnd, stderr: PipeEnd)

  /** The parent's ends that the three threads own, and what the child got. */
  datatype Launched = Launched(stdinWrite: int, stdoutRead: int, stderrRead: int, child: ChildEnds)

  /** Three pipes, or none: the calls stop at the first that fails, and then what was created is closed. */
  method OpenPipes(fds: Descriptors, pipe1: bool, pipe2: bool, pipe3: bool)
      returns (ok: bool, stdinPipe: (int, int), stdoutPipe: (int, int), stderrPipe: (int, int))
    requires fds.Valid()
    modifies fds
    ensures fds.Valid() && (ok <==> pipe1 && pipe2 && pipe3)
    ensures !ok ==> fds.open == old(fds.open)
    ensures ok ==> ThreePipes(old(fds.open), fds.open, old(fds.pipes), stdinPipe, stdoutPipe, stderrPipe)
  {
    stdinPipe, stdoutPipe, stderrPipe := (-1, -1), (-1, -1), (-1, -1);
    stdinPipe := fds.Pipe(pipe1);
    ok := pipe1;
    if ok {
      stdoutPipe := fds.Pipe(pipe2);
      ok := pipe2;
    }
    if ok {
      stderrPipe := fds.Pipe(pipe3);
      ok := pipe3;
    }
    if !ok {
      fds.CloseBoth(stdinPipe);
      fds.CloseBoth(stdoutPipe);
      fds.CloseBoth(stderrPipe);
    }
  }

  ghost predicate ThreePipes(before: map<int, PipeEnd>, after: map<int, PipeEnd>, first: nat,
                             a: (int, int), b: (int, int), c: (int, int))
  {
    && a.0 >= 0 && a.1 >= 0 && b.0 >= 0 && b.1 >= 0 && c.0 >= 0 && c.1 >= 0
    && a.0 != a.1 && b.0 != b.1 && c.0 != c.1
    && {a.0, a.1} !! {b.0, b.1} && {a.0, a.1} !! {c.0, c.1} && {b.0, b.1} !! {c.0, c.1}
    && {a.0, a.1} !! before.Keys && {b.0, b.1} !! before.Keys && {c.0, c.1} !! before.Keys
    && after == before + Ends(a, first) + Ends(b, first + 1) + Ends(c, first + 2)
  }

  /** The near ends of three pipes: what is written to the first the child reads, and what it writes to
      the second and the third is read from them. */
  function NearEnds(stdinWrite: int, stdoutRead: int, stderrRead: int, first: nat): map<int, PipeEnd> {
    map[stdinWrite := PipeEnd(first, true),
        stdoutRead := PipeEnd(first + 1, false),
        stderrRead := PipeEnd(first + 2, false)]
  }

  /** What is left of three pipes when their far ends, or both of each, have been closed. */
  lemma {:induction false} PipesClosed(before: map<int, PipeEnd>, after: map<int, PipeEnd>, first: nat,
                                       a: (int, int), b: (int, int), c: (int, int))
    requires ThreePipes(before, after, first, a, b, c)
    ensures && a.0 >= 0 && b.1 >= 0 && c.1 >= 0
            && a.1 != b.0 && a.1 != c.0 && b.0 != c.0 && {a.1, b.0, c.0} !! before.Keys
            && after - {a.0} - {b.1} - {c.1} == before + NearEnds(a.1, b.0, c.0, first)
            && a.0 in after && b.1 in after - {a.0} && c.1 in after - {a.0} - {b.1}
            && after[a.0] == PipeEnd(first, false) && after[b.1] == PipeEnd(first + 1, true)
            && after[c.1] == PipeEnd(first + 2, true)
    ensures && a.0 in after && a.1 in after && a.0 != a.1 && a.1 >= 0
            && b.0 in after - {a.0, a.1} && b.1 in after - {a.0, a.1} && b.0 != b.1 && b.0 >= 0
            && c.0 in after - {a.0, a.1} - {b.0, b.1} && c.1 in after - {a.0, a.1} - {b.0, b.1}
            && c.0 != c.1 && c.0 >= 0
            && after - {a.0, a.1} - {b.0, b.1} - {c.0, c.1} == before
  {
  }

  /** Everything before the threads start: each failure closes all that was created, and success
      leaves exactly the three near ends open, each the other end of the pipe that the child has for it. */
  method Launch(fds: Descriptors, argumentCount: nat, pipe1: bool, pipe2: bool, pipe3: bool, fork: bool)
      returns (r: Result<Launched, LaunchError>)
    requires fds.Valid()
    modifies fds
    ensures fds.Valid()
    ensures r == Err(EmptyArguments) <==> argumentCount == 0
    ensures r == Err(PipeCreationFailed) <==> argumentCount > 0 && !(pipe1 && pipe2 && pipe3)
    ensures r == Err(ForkFailed) <==> argumentCount > 0 && pipe1 && pipe2 && pipe3 && !fork
    ensures r.Err? ==> fds.open == old(fds.open)
    ensures r.Ok? ==> var l, first := r.value, old(fds.pipes);
                      && l.stdinWrite != l.stdoutRead && l.stdinWrite != l.stderrRead && l.stdoutRead != l.stderrRead
                      && {l.stdinWrite, l.stdoutRead, l.stderrRead} !! old(fds.open).Keys
                      && fds.open == old(fds.open) + NearEnds(l.stdinWrite, l.stdoutRead, l.stderrRead, first)
                      && l.child == ChildEnds(PipeEnd(first, false), PipeEnd(first + 1, true), PipeEnd(first + 2, true))
  {
    hide ThreePipes, NearEnds;
    ghost var before, first := fds.open, fds.pipes;
    if argumentCount == 0 {
      return Err(EmptyArguments);
    }
    var ok, stdinPipe, stdoutPipe, stderrPipe := OpenPipes(fds, pipe1, pipe2, pipe3);
    if !ok {
      return Err(PipeCreationFailed);
    }
    PipesClosed(before, fds.open, first, stdinPipe, stdoutPipe, stderrPipe);
    if !fork {
      fds.CloseBoth(stdinPipe);
      fds.CloseBoth(stdoutPipe);
      fds.CloseBoth(stderrPipe);
      return Err(ForkFailed);
    }
    var child := ChildEnds(fds.open[stdinPipe.0], fds.open[stdoutPipe.1], fds.open[stderrPipe.1]);
    fds.Close(stdinPipe.0);
    fds.Close(stdoutPipe.1);
    fds.Close(stderrPipe.1);
    return Ok(Launched(stdinPipe.1, stdoutPipe.0, stderrPipe.0, child));
  }
}
