// Who holds which pipe end: the pipe/fork/close loop of executor_run_pipeline in
// shell/src/executor.c, over the descriptor tables of the shell and its children.
module PipelineWiring {
  // What a descriptor refers to: something the shell was started with, or an end of the k-th pipe.
  datatype File = Inherited(id: int) | ReadEnd(pipe: nat) | WriteEnd(pipe: nat)

  type FdTable = map<int, File>

  const STDIN := 0
  const STDOUT := 1
  const CLOSED := -1

  // Which system calls succeed, by stage.
  datatype Kernel = Kernel(pipeSucceeds: nat -> bool, forkSucceeds: nat -> bool)

  // The shell's own table holds no pipe ends. Its standard descriptors may be closed.
  predicate IsShellTable(t: FdTable) {
    forall fd :: fd in t ==> 0 <= fd && t[fd].Inherited?
  }

  predicate StandardOpen(t: FdTable) {
    STDIN in t && STDOUT in t
  }

  // The table a stage of an n-stage pipeline should run with: what the shell has, but the pipes
  // from the stage before and to the stage after as standard input and output.
  function Wired(t: FdTable, i: nat, n: nat): FdTable {
    t + (if i > 0 then map[STDIN := ReadEnd(i - 1)] else map[])
      + (if i + 1 < n then map[STDOUT := WriteEnd(i)] else map[])
  }

  // Each pipe end is held once: the write end as stage k's stdout, the read end as the next
  // stage's stdin. In particular a reader sees the end of its input when stage k exits.
  lemma EndsHeldOnce(t: FdTable, i: nat, n: nat, k: nat, fd: int)
    requires IsShellTable(t) && i < n && k + 1 < n && fd in Wired(t, i, n)
    ensures Wired(t, i, n)[fd] == WriteEnd(k) <==> i == k && fd == 1
    ensures Wired(t, i, n)[fd] == ReadEnd(k) <==> i == k + 1 && fd == 0
    ensures Wired(t, i, n)[fd].Inherited? ==> fd in t && t[fd] == Wired(t, i, n)[fd]
    ensures t.Keys <= Wired(t, i, n).Keys
  {
  }

  // The descriptor a system call would take: the lowest one not in use.
  function LowestFree(t: FdTable, from: int): (fd: int)
    ensures from <= fd && fd !in t
    ensures forall k :: from <= k < fd ==> k in t
    decreases |set k | k in t && k >= from|
  {
    if from !in t then from
    else
      assert (set k | k in t && k >= from + 1) == (set k | k in t && k >= from) - {from};
      LowestFree(t, from + 1)
  }

  // Some stage's pipe or fork failed.
  predicate StageFails(kernel: Kernel, i: nat, n: nat) {
    (i + 1 < n && !kernel.pipeSucceeds(i)) || !kernel.forkSucceeds(i)
  }

  // Where the pipe ends around stage i are.
  predicate AreEnds(before: FdTable, prevReadFd: int, readFd: int, writeFd: int, i: nat, n: nat) {
    && (if i > 0 then prevReadFd >= 0 && prevReadFd !in before else prevReadFd == CLOSED)
    && (if i + 1 < n then readFd >= 0 && writeFd >= 0 && readFd != writeFd && readFd != prevReadFd && writeFd != prevReadFd
                          && readFd !in before && writeFd !in before
        else readFd == CLOSED && writeFd == CLOSED)
  }

  // The shell's table when it forks stage i.
  function Holding(before: FdTable, prevReadFd: int, readFd: int, writeFd: int, i: nat, n: nat): FdTable {
    before + (if i > 0 then map[prevReadFd := ReadEnd(i - 1)] else map[])
           + (if i + 1 < n then map[readFd := ReadEnd(i), writeFd := WriteEnd(i)] else map[])
  }

  lemma HoldingLess(before: FdTable, prevReadFd: int, readFd: int, writeFd: int, i: nat, n: nat)
    requires IsShellTable(before) && AreEnds(before, prevReadFd, readFd, writeFd, i, n)
    ensures Holding(before, prevReadFd, readFd, writeFd, i, n) - {prevReadFd, readFd, writeFd} == before
    ensures Holding(before, prevReadFd, readFd, writeFd, i, n) - {prevReadFd, writeFd}
            == if i + 1 < n then before[readFd := ReadEnd(i)] else before
  {
  }

  class Shell {
    var fds: FdTable

    constructor (fds: FdTable)
      ensures this.fds == fds
    {
      this.fds := fds;
    }

    // safe_close
    method SafeClose(fd: int) returns (closed: int)
      requires CLOSED !in fds && (fd >= 0 || fd == CLOSED)
      modifies this
      ensures fds == old(fds) - {fd} && closed == CLOSED
    {
      closed := fd;
      if fd >= 0 {
        fds := fds - {fd};
        closed := CLOSED;
      }
    }

    // pipe
    method Pipe(i: nat) returns (readFd: int, writeFd: int)
      modifies this
      ensures 0 <= readFd < writeFd && readFd !in old(fds) && writeFd !in old(fds)
      ensures forall k :: 0 <= k < writeFd && k != readFd ==> k in old(fds)
      ensures fds == old(fds) + map[readFd := ReadEnd(i), writeFd := WriteEnd(i)]
    {
      ghost var start := fds;
      readFd := LowestFree(fds, 0);
      fds := fds[readFd := ReadEnd(i)];
      ghost var mid := fds;
      writeFd := LowestFree(fds, 0);
      assert writeFd !in mid && forall k :: 0 <= k < readFd ==> k in start && k in mid;
      fds := fds[writeFd := WriteEnd(i)];
      forall k | 0 <= k < writeFd && k != readFd ensures k in old(fds) {
        assert k in mid;
      }
    }

    // What a forked child does to its copy of the shell's table before it runs the command.
    method ChildTable(prevReadFd: int, readFd: int, writeFd: int, ghost before: FdTable, ghost i: nat, ghost n: nat)
      returns (t: FdTable)
      requires IsShellTable(before) && i < n
      requires AreEnds(before, prevReadFd, readFd, writeFd, i, n)
      requires fds == Holding(before, prevReadFd, readFd, writeFd, i, n)
      ensures StandardOpen(before) || n == 1 ==> t == Wired(before, i, n)
      ensures prevReadFd == STDIN ==> STDIN !in t
      ensures i + 1 < n && (readFd == STDOUT || writeFd == STDOUT) ==> STDOUT !in t
    {
      t := fds;
      if prevReadFd >= 0 {
        t := t[STDIN := t[prevReadFd]];
        t := t - {prevReadFd};
      }
      if writeFd >= 0 {
        t := t[STDOUT := t[writeFd]];
        t := t - {writeFd};
      }
      if readFd >= 0 {
        t := t - {readFd};
      }
    }

    // Between stages the shell holds one descriptor more: the read end of the last pipe.
    ghost predicate Between(before: FdTable, prevReadFd: int, i: nat, n: nat)
      reads this
    {
      if i == 0 || i >= n then prevReadFd == CLOSED && fds == before
      else prevReadFd >= 0 && prevReadFd !in before && fds == before[prevReadFd := ReadEnd(i - 1)]
    }

    // One pass of the loop.
    method RunStage(kernel: Kernel, i: nat, n: nat, prevReadFd: int, ghost before: FdTable)
      returns (ok: bool, child: FdTable, nextReadFd: int)
      requires IsShellTable(before) && i < n && Between(before, prevReadFd, i, n)
      modifies this
      ensures ok == !StageFails(kernel, i, n)
      ensures !ok ==> fds == before
      ensures ok ==> Between(before, nextReadFd, i + 1, n)
      ensures ok && (StandardOpen(before) || n == 1) ==> child == Wired(before, i, n)
      ensures ok && prevReadFd == STDIN ==> STDIN !in child
      ensures ok && prevReadFd == CLOSED && i + 1 < n && STDIN !in before ==> nextReadFd == STDIN
      ensures ok && prevReadFd == CLOSED && i + 1 < n && STDOUT !in before ==> STDOUT !in child
    {
      hide Wired, LowestFree;
      child := map[];
      var readFd, writeFd, prev := CLOSED, CLOSED, prevReadFd;
      assert CLOSED !in fds;
      if i + 1 < n {
        if !kernel.pipeSucceeds(i) {
          prev := SafeClose(prev);
          return false, child, CLOSED;
        }
        readFd, writeFd := Pipe(i);
      }
      assert fds == Holding(before, prev, readFd, writeFd, i, n);
      HoldingLess(before, prev, readFd, writeFd, i, n);
      hide Holding, StageFails;
      if !kernel.forkSucceeds(i) {
        CloseAll(prev, readFd, writeFd);
        return false, child, CLOSED;
      }
      child := ChildTable(prev, readFd, writeFd, before, i, n);
      CloseUsed(prev, writeFd);
      return true, child, readFd;
    }

    // The failure path after fork.
    method CloseAll(prevReadFd: int, readFd: int, writeFd: int)
      requires CLOSED !in fds && CLOSED <= prevReadFd && CLOSED <= readFd && CLOSED <= writeFd
      modifies this
      ensures fds == old(fds) - {prevReadFd, readFd, writeFd}
    {
      var closed := SafeClose(prevReadFd);
      closed := SafeClose(readFd);
      closed := SafeClose(writeFd);
    }

    // The shell after a fork: the write end belongs to the child, the previous read end is consumed.
    method CloseUsed(prevReadFd: int, writeFd: int)
      requires CLOSED !in fds && CLOSED <= prevReadFd && CLOSED <= writeFd
      modifies this
      ensures fds == old(fds) - {prevReadFd, writeFd}
    {
      var closed := SafeClose(writeFd);
      closed := SafeClose(prevReadFd);
    }

    // The loop over the stages; `children` are the tables the started commands run with. On every
    // return path the shell is back to the table it had. The stages are wired as they should be
    // exactly when there is only one or the shell has both standard descriptors open: a pipe end that
    // lands on one of them is lost when the child closes the number it was duplicated from.
    method RunPipeline(kernel: Kernel, n: nat) returns (ok: bool, children: seq<FdTable>)
      requires IsShellTable(fds)
      modifies this
      ensures fds == old(fds)
      ensures ok <==> n > 0 && forall i :: 0 <= i < n ==> !StageFails(kernel, i, n)
      ensures ok ==> |children| == n
      ensures !ok && n > 0 ==> |children| < n && StageFails(kernel, |children|, n)
      ensures StandardOpen(old(fds)) || n == 1 ==> forall i :: 0 <= i < |children| ==> children[i] == Wired(old(fds), i, n)
      ensures ok ==> ((forall i :: 0 <= i < n ==> children[i] == Wired(old(fds), i, n)) <==> n == 1 || StandardOpen(old(fds)))
    {
      hide Wired, StageFails;
      children := [];
      if n == 0 {
        return false, children;
      }
      ghost var before := fds;
      var prevReadFd := CLOSED;
      for i := 0 to n
        invariant |children| == i && forall j :: 0 <= j < i ==> !StageFails(kernel, j, n)
        invariant StandardOpen(before) || n == 1 ==> forall j :: 0 <= j < i ==> children[j] == Wired(before, j, n)
        invariant i > 0 && 1 < n && STDOUT !in before ==> STDOUT !in children[0]
        invariant i == 1 && 1 < n && STDIN !in before ==> prevReadFd == STDIN
        invariant i > 1 && STDIN !in before ==> STDIN !in children[1]
        invariant Between(before, prevReadFd, i, n)
      {
        var started, child;
        started, child, prevReadFd := RunStage(kernel, i, n, prevReadFd, before);
        if !started {
          return false, children;
        }
        children := children + [child];
      }
      prevReadFd := SafeClose(prevReadFd);
      StagesNeedStandard(before, n);
      return true, children;
    }
  }

  // The first stage should have a standard output, the second a standard input.
  lemma StagesNeedStandard(t: FdTable, n: nat)
    ensures 1 < n ==> STDOUT in Wired(t, 0, n) && STDIN in Wired(t, 1, n)
  {
  }
}
