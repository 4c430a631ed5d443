/**
 The file lock as the server keeps it: two counters and a linked list of sleeping jobs,
 updated in place, for every file of a table.  Each method is one critical section and is
 proved against the transition it performs in `RwLock`.
 */
module FileLocks {
  import opened Options
  import opened RwLock
  import opened Chain

  class FileLock {
    var rcnt: int
    var wcnt: int
    var head: Node?<Job>
    var tail: Node?<Job>
    var waitJobCnt: int
    ghost var nodes: seq<Node<Job>>

    ghost function Waiters(): set<Node<Job>>
      reads this
    {
      set n | n in nodes
    }

    ghost predicate Valid()
      reads this, Waiters()
    {
      IsList(head, tail, nodes) && waitJobCnt == |nodes|
    }

    ghost function Abs(): Lock
      reads this
    {
      Lock(rcnt, wcnt, Elements(nodes))
    }

    constructor ()
      ensures Valid() && Abs() == FREE && nodes == []
    {
      rcnt, wcnt, waitJobCnt := 0, 0, 0;
      head, tail := null, null;
      nodes := [];
    }

    /** `wait_lock` up to the point where the job holds the lock or goes to sleep. */
    method WaitLock(lockCnt: nat, read: bool) returns (granted: bool)
      requires Valid()
      modifies this, Waiters()
      ensures Valid() && Abs() == Request(old(Abs()), Job(read, lockCnt))
      ensures granted <==> !(old(wcnt) > 0 || (!read && old(rcnt) > 0) || old(head) != null)
      ensures !granted ==> rcnt == old(rcnt) && wcnt == old(wcnt) && head != null && tail.data == Job(read, lockCnt)
      ensures granted && read ==> rcnt == old(rcnt) + lockCnt && wcnt == old(wcnt) && head == null
      ensures granted && !read ==> wcnt == lockCnt && rcnt == old(rcnt) && head == null
      ensures fresh(Waiters() - old(Waiters()))
    {
      if wcnt > 0 || (!read && rcnt > 0) || head != null {
        Append(Job(read, lockCnt));
        granted := false;
      } else {
        Hold(lockCnt, read);
        granted := true;
      }
    }

    method Append(job: Job)
      requires Valid()
      modifies this, Waiters()
      ensures Valid() && Abs() == Lock(old(rcnt), old(wcnt), old(Abs()).queue + [job])
      ensures fresh(Waiters() - old(Waiters()))
    {
      var n := new Node(job);
      if head == null {
        head, tail := n, n;
        nodes := [n];
      } else {
        assert forall i | 0 <= i < |nodes| - 1 :: nodes[i] != tail;
        tail.next := n;
        tail := n;
        nodes := nodes + [n];
      }
      waitJobCnt := waitJobCnt + 1;
    }

    /** The end of `wait_lock`: at once for a granted job, after the signal for a sleeper. */
    method Hold(lockCnt: nat, read: bool)
      requires Valid()
      modifies this
      ensures Valid() && Abs() == Take(old(Abs()), Job(read, lockCnt))
      ensures read ==> rcnt == old(rcnt) + lockCnt && wcnt == old(wcnt)
      ensures !read ==> wcnt == lockCnt && rcnt == old(rcnt)
      ensures nodes == old(nodes) && head == old(head) && tail == old(tail) && waitJobCnt == old(waitJobCnt)
    {
      if read {
        rcnt := rcnt + lockCnt;
      } else {
        wcnt := lockCnt;
      }
    }

    /** `decrease_lock_cnt`; returns the jobs it signals, in order. */
    method DecreaseLockCnt(read: bool) returns (signalled: seq<Job>)
      requires Valid()
      modifies this
      ensures Valid() && Abs() == Release(old(Abs()), read)
      ensures signalled == old(Abs()).queue[..Popped(old(Abs()), read)]
      ensures rcnt == old(rcnt) - (if read then 1 else 0) && wcnt == old(wcnt) - (if read then 0 else 1)
      ensures signalled + Abs().queue == old(Abs()).queue
      ensures signalled != [] <==> old(Abs()).queue != [] && (if read then rcnt == 0 else wcnt == 0)
      ensures Waiters() <= old(Waiters())
    {
      ghost var was := Abs();
      var signal := Decrement(read);
      signalled := [];
      if signal && head != null {
        signalled := SignalBatch();
      }
      ReleaseIs(was, read);
    }

    /** One unit less; whether it was the last. */
    method Decrement(read: bool) returns (signal: bool)
      requires Valid()
      modifies this
      ensures Valid() && Abs() == RwLock.Decrement(old(Abs()), read) && nodes == old(nodes) && head == old(head)
      ensures signal == Drains(old(Abs()), read)
    {
      signal := false;
      if read {
        rcnt := rcnt - 1;
        signal := rcnt == 0;
      } else {
        wcnt := wcnt - 1;
        signal := wcnt == 0;
      }
    }

    /** Unlinks the first waiter. */
    method PopHead() returns (job: Job)
      requires Valid() && head != null
      modifies this
      ensures Valid() && rcnt == old(rcnt) && wcnt == old(wcnt)
      ensures nodes == old(nodes)[1..] && job == old(nodes)[0].data
    {
      assert |nodes| > 1 ==> nodes[0].next == nodes[1];
      job := head.data;
      waitJobCnt := waitJobCnt - 1;
      head := head.next;
      if head == null {
        tail := null;
      }
      nodes := nodes[1..];
      assert forall i | 0 <= i < |nodes| :: nodes[i] == old(nodes)[i+1];
    }

    /** Removing and signalling one batch of waiters. */
    method SignalBatch() returns (signalled: seq<Job>)
      requires Valid() && head != null
      modifies this
      ensures Valid() && Waiters() <= old(Waiters())
      ensures var q := old(Abs()).queue;
              && Abs() == Lock(old(rcnt), old(wcnt), q[BatchSize(q)..])
              && signalled == q[..BatchSize(q)]
    {
      ghost var was := nodes;
      ghost var k;
      signalled, k := SignalWhile();
      PrefixIs(Elements(was), k);
      assert Elements(was[k..]) == Elements(was)[k..];
    }

    /** The do-while loop that pops and signals waiters. */
    method SignalWhile() returns (signalled: seq<Job>, ghost k: nat)
      requires Valid() && head != null
      modifies this
      ensures Popping(old(nodes), k) && rcnt == old(rcnt) && wcnt == old(wcnt)
      ensures signalled == Elements(old(nodes))[..k]
      ensures IsBatch(Elements(old(nodes)), k)
    {
      ghost var was, q := nodes, Elements(nodes);
      signalled, k := [], 0;
      while true
        invariant Popping(was, k) && head != null && rcnt == old(rcnt) && wcnt == old(wcnt)
        invariant signalled == q[..k] && OnlyReaders(q, k)
        decreases |was| - k
      {
        var job := PopNext(was, k);
        assert q[..k] + [job] == q[..k + 1];
        signalled := signalled + [job];
        k := k + 1;
        if !(head != null && job.read && head.data.read) { break; }
      }
    }

    /** The first `k` of the waiters `was` are gone. */
    ghost predicate Popping(was: seq<Node<Job>>, k: nat)
      reads this, Waiters()
    {
      && Valid() && k <= |was| && nodes == was[k..]
      && (head == null <==> k == |was|)
      && (k < |was| ==> head == was[k])
    }

    method PopNext(ghost was: seq<Node<Job>>, ghost k: nat) returns (job: Job)
      requires Popping(was, k) && head != null
      modifies this
      ensures Popping(was, k + 1) && rcnt == old(rcnt) && wcnt == old(wcnt)
      ensures job == was[k].data
    {
      job := PopHead();
      assert was[k..][1..] == was[k + 1..];
    }
  }

  /** Releasing a unit, in any state: who leaves the queue leaves it from the front, and somebody does if it drains. */
  lemma ReleaseIs(l: Lock, read: bool)
    ensures var now := Release(l, read);
            && now.rcnt == l.rcnt - (if read then 1 else 0) && now.wcnt == l.wcnt - (if read then 0 else 1)
            && l.queue[..Popped(l, read)] + now.queue == l.queue
            && (Popped(l, read) > 0 <==> l.queue != [] && (if read then now.rcnt == 0 else now.wcnt == 0))
  {
  }

  /** After popping `k > 0` waiters the loop goes on only at a reader behind readers. */
  predicate OnlyReaders(q: seq<Job>, k: nat)
    requires k < |q|
  {
    k > 0 ==> forall i | 0 <= i <= k :: q[i].read
  }

  /** The signalling loop can stop after `k` waiters. */
  predicate IsBatch(q: seq<Job>, k: nat) {
    && 0 < k <= |q|
    && (k > 1 ==> forall i | 0 <= i < k :: q[i].read)
    && (k == |q| || !q[k - 1].read || !q[k].read)
  }

  lemma PrefixIs(q: seq<Job>, k: nat)
    requires IsBatch(q, k)
    ensures BatchSize(q) == k
  {
  }

  // ---------------------------------------------------------------- the table

  datatype Outcome = Refused | Granted | Asleep

  /** One completed asynchronous operation: a read or a write on file `fidx`. */
  datatype Completion = Completion(fidx: nat, read: bool)

  /** The locks of all files after a batch of completions. */
  function Completed(ls: seq<Lock>, events: seq<Completion>): (r: seq<Lock>)
    ensures |r| == |ls|
  {
    if events == [] then ls
    else
      var e := events[|events|-1];
      var before := Completed(ls, events[..|events|-1]);
      if e.fidx >= |ls| then before else before[e.fidx := Release(before[e.fidx], e.read)]
  }

  lemma OneMore(ls: seq<Lock>, events: seq<Completion>, i: nat)
    requires i < |events|
    ensures var e := events[i];
            var before := Completed(ls, events[..i]);
            Completed(ls, events[..i + 1]) ==
            if e.fidx >= |ls| then before else before[e.fidx := Release(before[e.fidx], e.read)]
  {
    assert events[..i + 1][..i] == events[..i];
  }

  function Count(events: seq<Completion>, fidx: nat, read: bool): nat {
    if events == [] then 0
    else Count(events[..|events|-1], fidx, read) + if events[|events|-1] == Completion(fidx, read) then 1 else 0
  }

  /** Every completion gives back exactly one unit of its own file and mode. */
  lemma {:induction false} OneUnitEach(ls: seq<Lock>, events: seq<Completion>, fidx: nat)
    requires fidx < |ls|
    ensures Completed(ls, events)[fidx].rcnt == ls[fidx].rcnt - Count(events, fidx, true)
    ensures Completed(ls, events)[fidx].wcnt == ls[fidx].wcnt - Count(events, fidx, false)
  {
    if events == [] {
    } else {
      OneUnitEach(ls, events[..|events|-1], fidx);
    }
  }

  class FileTable {
    var files: seq<FileLock>

    ghost function Waiters(): set<Node<Job>>
      reads this, files
    {
      set i, n | 0 <= i < |files| && n in files[i].Waiters() :: n
    }

    /** Files are guarded separately: no two share a lock or a waiter. */
    ghost predicate Valid()
      reads this, files, Waiters()
    {
      && (forall i | 0 <= i < |files| :: files[i].Valid())
      && (forall i, j | 0 <= i < j < |files| :: files[i] != files[j] && files[i].Waiters() !! files[j].Waiters())
    }

    ghost function Abs(): (ls: seq<Lock>)
      reads this, files
      ensures |ls| == |files| && forall i | 0 <= i < |files| :: ls[i] == files[i].Abs()
    {
      seq(|files|, i requires 0 <= i < |files| reads this, files => files[i].Abs())
    }

    constructor ()
      ensures Valid() && Abs() == []
    {
      files := [];
    }

    /** A newly catalogued file comes with a free lock. */
    method AddFile()
      requires Valid()
      modifies this
      ensures Valid() && Abs() == old(Abs()) + [FREE]
      ensures Waiters() == old(Waiters())
      ensures |files| == |old(files)| + 1 && files[..|old(files)|] == old(files) && fresh(files[|old(files)|])
    {
      var lock := new FileLock();
      files := files + [lock];
      NewFile(lock);
    }

    twostate lemma NewFile(new lock: FileLock)
      requires old(Valid()) && files == old(files) + [lock]
      requires forall j | 0 <= j < |old(files)| :: unchanged(old(files)[j])
      requires forall j | 0 <= j < |old(files)| :: forall n | n in old(files[j].Waiters()) :: unchanged(n)
      requires lock.Valid() && lock.nodes == [] && fresh(lock)
      ensures Valid() && Abs() == old(Abs()) + [lock.Abs()]
      ensures Waiters() == old(Waiters())
    {
      assert lock.Waiters() == {};
      forall j | 0 <= j < |old(files)|
        ensures files[j] != lock && files[j].Valid() && files[j].Waiters() == old(files[j].Waiters())
        ensures files[j].Abs() == old(files[j].Abs())
      {
        assert files[j] == old(files)[j];
      }
      forall n ensures n in Waiters() <==> n in old(Waiters()) {
        if n in old(Waiters()) {
          var i :| 0 <= i < |old(files)| && n in old(files[i].Waiters());
          assert n in files[i].Waiters();
        }
      }
    }

    /** What a critical section on file `fidx` leaves of the others. */
    twostate lemma OnlyFile(fidx: nat)
      requires old(Valid()) && files == old(files) && fidx < |files|
      requires forall j | 0 <= j < |files| && j != fidx :: unchanged(files[j])
      requires forall j | 0 <= j < |files| && j != fidx :: forall n | n in old(files[j].Waiters()) :: unchanged(n)
      requires files[fidx].Valid() && fresh(files[fidx].Waiters() - old(files[fidx].Waiters()))
      ensures Valid() && Abs() == old(Abs())[fidx := files[fidx].Abs()]
      ensures fresh(Waiters() - old(Waiters()))
      ensures files[fidx].Waiters() <= old(files[fidx].Waiters()) ==> Waiters() <= old(Waiters())
    {
      forall j | 0 <= j < |files| && j != fidx
        ensures files[j].Valid() && files[j].Waiters() == old(files[j].Waiters())
        ensures files[j].Abs() == old(files[j].Abs())
        ensures files[j].Waiters() !! files[fidx].Waiters()
      {
        assert files[j].Waiters() !! old(files[fidx].Waiters());
      }
      forall n | n in Waiters() && n !in files[fidx].Waiters() ensures n in old(Waiters()) {
        var i :| 0 <= i < |files| && n in files[i].Waiters();
        assert n in old(files[i].Waiters());
      }
    }

    /** `wait_lock` on file `fidx`; no other file's lock changes. */
    method WaitLock(fidx: nat, lockCnt: nat, read: bool) returns (outcome: Outcome)
      requires Valid()
      modifies files, Waiters()
      ensures Valid() && files == old(files)
      ensures outcome == Refused <==> fidx >= |files|
      ensures outcome == Refused ==> Abs() == old(Abs())
      ensures outcome != Refused ==>
                && Abs() == old(Abs())[fidx := Request(old(Abs()[fidx]), Job(read, lockCnt))]
                && (outcome == Asleep <==> MustWait(old(Abs()[fidx]), Job(read, lockCnt)))
      ensures fresh(Waiters() - old(Waiters()))
    {
      if fidx >= |files| {
        return Refused;
      }
      var granted := files[fidx].WaitLock(lockCnt, read);
      outcome := if granted then Granted else Asleep;
      forall j | 0 <= j < |files| && j != fidx
        ensures unchanged(files[j]) && forall n | n in old(files[j].Waiters()) :: unchanged(n)
      {
        assert files[j] != files[fidx] && old(files[j].Waiters()) !! old(files[fidx].Waiters());
      }
      OnlyFile(fidx);
    }

    /** The rest of `wait_lock`, run by a sleeper that has been signalled. */
    method Resume(fidx: nat, lockCnt: nat, read: bool)
      requires Valid() && fidx < |files|
      modifies files
      ensures Valid() && files == old(files)
      ensures Abs() == old(Abs())[fidx := Take(old(Abs()[fidx]), Job(read, lockCnt))]
      ensures Waiters() <= old(Waiters())
    {
      files[fidx].Hold(lockCnt, read);
      OnlyFile(fidx);
    }

    /** `decrease_lock_cnt` on file `fidx`, ignored for an index that is not catalogued. */
    method DecreaseLockCnt(fidx: nat, read: bool)
      requires Valid()
      modifies files
      ensures Valid() && files == old(files)
      ensures Waiters() <= old(Waiters())
      ensures Abs() == if fidx >= |files| then old(Abs())
                       else old(Abs())[fidx := Release(old(Abs()[fidx]), read)]
    {
      if fidx >= |files| {
        return;
      }
      var signalled := files[fidx].DecreaseLockCnt(read);
      OnlyFile(fidx);
    }

    /** One round of the completion thread. */
    method Completions(events: seq<Completion>)
      requires Valid()
      modifies files
      ensures Valid() && Abs() == Completed(old(Abs()), events)
      ensures files == old(files) && Waiters() <= old(Waiters())
    {
      ghost var was := Abs();
      for i := 0 to |events|
        invariant Valid() && files == old(files) && Waiters() <= old(Waiters())
        invariant Abs() == Completed(was, events[..i])
      {
        OneMore(was, events, i);
        DecreaseLockCnt(events[i].fidx, events[i].read);
      }
      assert events[..|events|] == events;
    }

    /** One critical section on file `fidx`, by the jobs of state `s`. */
    method Perform(fidx: nat, step: Step, s: State)
      requires Valid() && fidx < |files| && Enabled(s, step) && Abs()[fidx] == s.lock
      modifies files, Waiters()
      ensures Valid() && files == old(files)
      ensures Abs() == old(Abs())[fidx := Next(s, step).lock]
      ensures fresh(Waiters() - old(Waiters()))
    {
      match step {
        case Arrive(j) =>
          var outcome := WaitLock(fidx, j.cnt, j.read);
        case Resume(p) =>
          Resume(fidx, s.grants[p].job.cnt, s.grants[p].job.read);
        case Complete(p) =>
          DecreaseLockCnt(fidx, s.grants[p].job.read);
      }
    }

    /**
     The table runs every schedule: after any enabled critical sections on its files, in any
     order, each lock in memory is the one the transition system arrives at.
     */
    method Replay(start: seq<State>, sections: seq<Section>) returns (ss: seq<State>)
      requires Valid() && Abs() == LocksOf(start) && ExecAll(start, sections).Some?
      modifies files, Waiters()
      ensures Valid() && files == old(files)
      ensures ss == ExecAll(start, sections).value && Abs() == LocksOf(ss)
      decreases |sections|
    {
      if sections == [] {
        return start;
      }
      var next := ReplayOne(start, sections[0]);
      ss := Replay(next, sections[1..]);
    }

    method ReplayOne(ss: seq<State>, x: Section) returns (next: seq<State>)
      requires Valid() && Abs() == LocksOf(ss) && x.fidx < |ss| && Enabled(ss[x.fidx], x.step)
      modifies files, Waiters()
      ensures Valid() && files == old(files) && fresh(Waiters() - old(Waiters()))
      ensures next == ss[x.fidx := Next(ss[x.fidx], x.step)] && Abs() == LocksOf(next)
    {
      Perform(x.fidx, x.step, ss[x.fidx]);
      next := ss[x.fidx := Next(ss[x.fidx], x.step)];
    }
  }

  /** A critical section on the lock of one file. */
  datatype Section = Section(fidx: nat, step: Step)

  function LocksOf(ss: seq<State>): (ls: seq<Lock>)
    ensures |ls| == |ss| && forall i | 0 <= i < |ss| :: ls[i] == ss[i].lock
  {
    seq(|ss|, i requires 0 <= i < |ss| => ss[i].lock)
  }

  /** Critical sections on a table of locks, interleaved in any way. */
  function ExecAll(ss: seq<State>, xs: seq<Section>): Option<seq<State>>
    decreases |xs|
  {
    if xs == [] then Some(ss)
    else if xs[0].fidx < |ss| && Enabled(ss[xs[0].fidx], xs[0].step) then
      ExecAll(ss[xs[0].fidx := Next(ss[xs[0].fidx], xs[0].step)], xs[1..])
    else None
  }

  /** The steps on one file. */
  function StepsOn(xs: seq<Section>, fidx: nat): seq<Step> {
    if xs == [] then []
    else (if xs[0].fidx == fidx then [xs[0].step] else []) + StepsOn(xs[1..], fidx)
  }

  /** What happens on one file of a table is a run of that file's lock alone. */
  lemma {:induction false} FilesAreIndependent(ss: seq<State>, xs: seq<Section>, fidx: nat)
    requires fidx < |ss| && ExecAll(ss, xs).Some?
    ensures |ExecAll(ss, xs).value| == |ss|
    ensures Exec(ss[fidx], StepsOn(xs, fidx)) == Some(ExecAll(ss, xs).value[fidx])
    decreases |xs|
  {
    if xs == [] {
    } else {
      var x := xs[0];
      var next := ss[x.fidx := Next(ss[x.fidx], x.step)];
      FilesAreIndependent(next, xs[1..], fidx);
      if x.fidx == fidx {
        ExecFirst(ss[fidx], x.step, StepsOn(xs[1..], fidx));
      } else {
        assert next[fidx] == ss[fidx];
        assert [] + StepsOn(xs[1..], fidx) == StepsOn(xs[1..], fidx);
      }
    }
  }
}
