/**
 The counted reader/writer lock that guards one catalogued file, as a transition
 system.  Every step is one critical section of the file's mutex:

   Arrive    wait_lock up to the point where the caller either holds the lock or sleeps;
   Resume    the rest of wait_lock, run by a sleeper that has been signalled;
   Complete  decrease_lock_cnt, run once for each finished stripe.

 A waiter leaves the queue when it is signalled, but the counter is raised only when
 it resumes, so steps of other threads may fall in between.  Statements that hold
 under every interleaving are proved for every run; mutual exclusion is proved for
 exactly the runs that have it.
 */
module RwLock {
  import opened Options
  import opened Sums

  /** A request for the lock worth `cnt` units, one for each stripe. */
  datatype Job = Job(read: bool, cnt: nat)

  /** The lock fields of `file_meta_t`; `queue` is the list from `head` to `tail`. */
  datatype Lock = Lock(rcnt: int, wcnt: int, queue: seq<Job>)

  const FREE := Lock(0, 0, [])

  /** The counters show somebody next to whom `j` must not hold the lock. */
  predicate HeldAgainst(l: Lock, j: Job) { l.wcnt > 0 || (!j.read && l.rcnt > 0) }

  /** The condition under which `wait_lock` puts its caller to sleep. */
  predicate MustWait(l: Lock, j: Job) { HeldAgainst(l, j) || l.queue != [] }

  /** What a granted caller does to the counters: readers add, a writer overwrites. */
  function Take(l: Lock, j: Job): Lock {
    if j.read then l.(rcnt := l.rcnt + j.cnt) else l.(wcnt := j.cnt)
  }

  function Request(l: Lock, j: Job): Lock {
    if MustWait(l, j) then l.(queue := l.queue + [j]) else Take(l, j)
  }

  /** The length of the longest run of readers at the front of `q`. */
  function ReaderPrefix(q: seq<Job>): (k: nat)
    ensures k <= |q|
    ensures forall i | 0 <= i < k :: q[i].read
    ensures k < |q| ==> !q[k].read
  {
    if q == [] || !q[0].read then 0 else 1 + ReaderPrefix(q[1..])
  }

  /** How many waiters the signalling loop of `decrease_lock_cnt` removes. */
  function BatchSize(q: seq<Job>): (k: nat)
    ensures k <= |q|
  {
    if q == [] then 0 else if q[0].read then ReaderPrefix(q) else 1
  }

  function Decrement(l: Lock, read: bool): Lock {
    if read then l.(rcnt := l.rcnt - 1) else l.(wcnt := l.wcnt - 1)
  }

  /** Whether giving back one unit brings its counter to exactly zero. */
  predicate Drains(l: Lock, read: bool) {
    if read then l.rcnt == 1 else l.wcnt == 1
  }

  /** The number of waiters signalled when one unit is given back. */
  function Popped(l: Lock, read: bool): (k: nat)
    ensures k <= |l.queue|
  {
    if Drains(l, read) then BatchSize(l.queue) else 0
  }

  function Release(l: Lock, read: bool): Lock {
    Decrement(l, read).(queue := l.queue[Popped(l, read)..])
  }

  // ---------------------------------------------------------------- runs

  /** A granted job has been signalled but still sleeps, or holds `left` unfinished stripes. */
  datatype Phase = Signalled | Holding(left: nat)

  datatype Grant = Grant(job: Job, phase: Phase)

  /**
   The lock with everything that was ever granted, in the order of the grant decisions.
   A job that was granted keeps its position for ever; finished jobs are `Holding(0)`.
   */
  datatype State = State(lock: Lock, grants: seq<Grant>)

  const INIT := State(FREE, [])

  datatype Step = Arrive(job: Job) | Resume(p: nat) | Complete(p: nat)

  predicate IsSignalled(g: Grant) { g.phase.Signalled? }

  predicate Active(g: Grant) { g.phase.Signalled? || g.phase.left > 0 }

  predicate Enabled(s: State, step: Step) {
    match step
    case Arrive(j) => j.cnt > 0
    case Resume(p) => p < |s.grants| && IsSignalled(s.grants[p])
    case Complete(p) => p < |s.grants| && s.grants[p].phase.Holding? && s.grants[p].phase.left > 0
  }

  /** The waiters of `q` as freshly signalled grants. */
  function Wake(q: seq<Job>): (gs: seq<Grant>)
    ensures |gs| == |q|
    ensures forall i | 0 <= i < |q| :: gs[i] == Grant(q[i], Signalled)
  {
    seq(|q|, i requires 0 <= i < |q| => Grant(q[i], Signalled))
  }

  /** One unit of grant `p` is given back, before any waiter is signalled. */
  function GiveBack(gs: seq<Grant>, p: nat): seq<Grant>
    requires p < |gs| && gs[p].phase.Holding? && gs[p].phase.left > 0
  {
    gs[p := gs[p].(phase := Holding(gs[p].phase.left - 1))]
  }

  function Next(s: State, step: Step): State
    requires Enabled(s, step)
  {
    match step
    case Arrive(j) =>
      State(Request(s.lock, j),
            if MustWait(s.lock, j) then s.grants else s.grants + [Grant(j, Holding(j.cnt))])
    case Resume(p) =>
      var j := s.grants[p].job;
      State(Take(s.lock, j), s.grants[p := Grant(j, Holding(j.cnt))])
    case Complete(p) =>
      var read := s.grants[p].job.read;
      State(Release(s.lock, read),
            GiveBack(s.grants, p) + Wake(s.lock.queue[..Popped(s.lock, read)]))
  }

  /** The state after `steps`, if each of them is enabled when it is taken. */
  function Exec(s: State, steps: seq<Step>): Option<State>
    decreases |steps|
  {
    if steps == [] then Some(s)
    else if Enabled(s, steps[0]) then Exec(Next(s, steps[0]), steps[1..])
    else None
  }

  lemma ExecFirst(s: State, step: Step, rest: seq<Step>)
    requires Enabled(s, step)
    ensures Exec(s, [step] + rest) == Exec(Next(s, step), rest)
  {
    var steps := [step] + rest;
    assert steps[0] == step && steps[1..] == rest;
  }

  lemma ExecOne(s: State, step: Step)
    requires Enabled(s, step)
    ensures Exec(s, [step]) == Some(Next(s, step))
  {
    ExecFirst(s, step, []);
    assert [step] + [] == [step];
  }

  // ---------------------------------------------------------------- counting

  function ReadUnits(g: Grant): nat {
    if g.job.read && g.phase.Holding? then g.phase.left else 0
  }

  function WriteUnits(g: Grant): nat {
    if !g.job.read && g.phase.Holding? then g.phase.left else 0
  }

  /** The unfinished stripes over all jobs that hold the lock for reading (or for writing). */
  function Outstanding(gs: seq<Grant>, read: bool): nat {
    if read then Total(ReadUnits, gs) else Total(WriteUnits, gs)
  }

  predicate AnySignalled(gs: seq<Grant>) {
    exists p | 0 <= p < |gs| :: IsSignalled(gs[p])
  }

  /** What every interleaving keeps. */
  predicate Inv(s: State) {
    && s.lock.rcnt == Outstanding(s.grants, true)
    && s.lock.wcnt <= Outstanding(s.grants, false)
    && (forall i | 0 <= i < |s.lock.queue| :: s.lock.queue[i].cnt > 0)
    && (forall p | 0 <= p < |s.grants| :: s.grants[p].job.cnt > 0)
    && (s.lock.queue != [] ==> s.lock.rcnt > 0 || s.lock.wcnt > 0 || AnySignalled(s.grants))
  }

  lemma OutstandingConcat(gs: seq<Grant>, hs: seq<Grant>, read: bool)
    ensures Outstanding(gs + hs, read) == Outstanding(gs, read) + Outstanding(hs, read)
  {
    TotalConcat(ReadUnits, gs, hs);
    TotalConcat(WriteUnits, gs, hs);
  }

  lemma OutstandingWake(q: seq<Job>, read: bool)
    ensures Outstanding(Wake(q), read) == 0
  {
    TotalZero(ReadUnits, Wake(q));
    TotalZero(WriteUnits, Wake(q));
  }

  lemma OutstandingOne(g: Grant, read: bool)
    ensures Outstanding([g], read) == if read then ReadUnits(g) else WriteUnits(g)
  {
    assert Total(ReadUnits, [g]) == ReadUnits(g) + Total(ReadUnits, []);
    assert Total(WriteUnits, [g]) == WriteUnits(g) + Total(WriteUnits, []);
  }

  /** How the outstanding units change in one step. */
  lemma OutstandingStep(s: State, step: Step, read: bool)
    requires Enabled(s, step)
    ensures Outstanding(Next(s, step).grants, read) ==
            Outstanding(s.grants, read) +
            match step
            case Arrive(j) => if j.read == read && !MustWait(s.lock, j) then j.cnt else 0
            case Resume(p) => if s.grants[p].job.read == read then s.grants[p].job.cnt else 0
            case Complete(p) => if s.grants[p].job.read == read then -1 else 0
  {
    match step
    case Arrive(j) =>
      OutstandingConcat(s.grants, [Grant(j, Holding(j.cnt))], read);
      OutstandingOne(Grant(j, Holding(j.cnt)), read);
    case Resume(p) =>
      var g := Grant(s.grants[p].job, Holding(s.grants[p].job.cnt));
      TotalUpdate(ReadUnits, s.grants, p, g);
      TotalUpdate(WriteUnits, s.grants, p, g);
    case Complete(p) =>
      var g := s.grants[p].(phase := Holding(s.grants[p].phase.left - 1));
      TotalUpdate(ReadUnits, s.grants, p, g);
      TotalUpdate(WriteUnits, s.grants, p, g);
      var woken := s.lock.queue[..Popped(s.lock, s.grants[p].job.read)];
      OutstandingConcat(GiveBack(s.grants, p), Wake(woken), read);
      OutstandingWake(woken, read);
  }

  lemma InvStep(s: State, step: Step)
    requires Inv(s) && Enabled(s, step)
    ensures Inv(Next(s, step))
  {
    var t := Next(s, step);
    OutstandingStep(s, step, true);
    OutstandingStep(s, step, false);
    match step
    case Arrive(j) =>
      if AnySignalled(s.grants) {
        var p :| 0 <= p < |s.grants| && IsSignalled(s.grants[p]);
        assert t.grants[p] == s.grants[p];
      }
    case Resume(p) =>
    case Complete(p) =>
      var k := Popped(s.lock, s.grants[p].job.read);
      if k > 0 {
        assert IsSignalled(t.grants[|s.grants|]);
      } else if AnySignalled(s.grants) {
        var q :| 0 <= q < |s.grants| && IsSignalled(s.grants[q]);
        assert t.grants[q] == s.grants[q];
      }
  }

  lemma {:induction false} InvRun(s: State, steps: seq<Step>)
    requires Inv(s) && Exec(s, steps).Some?
    ensures Inv(Exec(s, steps).value)
    decreases |steps|
  {
    if steps == [] {
    } else {
      InvStep(s, steps[0]);
      InvRun(Next(s, steps[0]), steps[1..]);
    }
  }

  lemma InvReachable(steps: seq<Step>)
    requires Exec(INIT, steps).Some?
    ensures Inv(Exec(INIT, steps).value)
  {
    InvRun(INIT, steps);
  }

  // ---------------------------------------------------------------- no lost wakeup

  /** In `s` some stripe can complete or some signalled job can resume. */
  predicate CanProgress(s: State) {
    exists p: nat :: p < |s.grants| && Active(s.grants[p])
  }

  lemma ActiveCanStep(s: State, p: nat)
    requires p < |s.grants| && Active(s.grants[p])
    ensures Enabled(s, Resume(p)) || Enabled(s, Complete(p))
  {
  }

  lemma WaitingCanProgress(s: State)
    requires Inv(s) && s.lock.queue != []
    ensures CanProgress(s)
  {
    if AnySignalled(s.grants) {
      var p :| 0 <= p < |s.grants| && IsSignalled(s.grants[p]);
      assert Active(s.grants[p]);
    } else {
      TotalZero(ReadUnits, s.grants);
      TotalZero(WriteUnits, s.grants);
      var p :| 0 <= p < |s.grants| && (ReadUnits(s.grants[p]) > 0 || WriteUnits(s.grants[p]) > 0);
      assert Active(s.grants[p]);
    }
  }

  /**
   No lost wakeup, under every interleaving: while anyone waits, a counter is positive or
   a signalled job has yet to resume; the counters never exceed the units that are still
   to be given back, so the step that will lead to the next signal is enabled.
   */
  lemma NoLostWakeup(steps: seq<Step>)
    requires Exec(INIT, steps).Some?
    ensures var s := Exec(INIT, steps).value;
            && s.lock.rcnt == Outstanding(s.grants, true)
            && s.lock.wcnt <= Outstanding(s.grants, false)
            && (s.lock.queue != [] ==>
                  && (s.lock.rcnt > 0 || s.lock.wcnt > 0 || AnySignalled(s.grants))
                  && exists p: nat :: Enabled(s, Resume(p)) || Enabled(s, Complete(p)))
  {
    InvReachable(steps);
    var s := Exec(INIT, steps).value;
    if s.lock.queue != [] {
      WaitingCanProgress(s);
      var p: nat :| p < |s.grants| && Active(s.grants[p]);
      ActiveCanStep(s, p);
    }
  }

  // ---------------------------------------------------------------- FIFO

  function Jobs(gs: seq<Grant>): (js: seq<Job>)
    ensures |js| == |gs|
    ensures forall i | 0 <= i < |gs| :: js[i] == gs[i].job
  {
    seq(|gs|, i requires 0 <= i < |gs| => gs[i].job)
  }

  function Arrivals(steps: seq<Step>): seq<Job> {
    if steps == [] then []
    else (if steps[0].Arrive? then [steps[0].job] else []) + Arrivals(steps[1..])
  }

  /** The grant decisions taken so far, followed by those who still wait. */
  function Order(s: State): seq<Job> {
    Jobs(s.grants) + s.lock.queue
  }

  lemma JobsWake(gs: seq<Grant>, q: seq<Job>)
    ensures Jobs(gs + Wake(q)) == Jobs(gs) + q
  {
  }

  lemma JobsGiveBack(gs: seq<Grant>, p: nat)
    requires p < |gs| && gs[p].phase.Holding? && gs[p].phase.left > 0
    ensures Jobs(GiveBack(gs, p)) == Jobs(gs)
  {
  }

  lemma OrderStep(s: State, step: Step)
    requires Enabled(s, step)
    ensures Order(Next(s, step)) == Order(s) + if step.Arrive? then [step.job] else []
    ensures |s.grants| <= |Next(s, step).grants|
  {
    var t := Next(s, step);
    match step
    case Arrive(j) =>
      assert Jobs(s.grants + [Grant(j, Holding(j.cnt))]) == Jobs(s.grants) + [j];
      assert Jobs(s.grants) + (s.lock.queue + [j]) == Order(s) + [j];
    case Resume(p) =>
      assert Jobs(t.grants) == Jobs(s.grants);
    case Complete(p) =>
      OrderComplete(s, p);
  }

  lemma OrderComplete(s: State, p: nat)
    requires Enabled(s, Complete(p))
    ensures Order(Next(s, Complete(p))) == Order(s) + []
    ensures |s.grants| <= |Next(s, Complete(p)).grants|
  {
    var k := Popped(s.lock, s.grants[p].job.read);
    var q := s.lock.queue;
    JobsGiveBack(s.grants, p);
    JobsWake(GiveBack(s.grants, p), q[..k]);
    assert Jobs(s.grants) + q[..k] + q[k..] == Jobs(s.grants) + (q[..k] + q[k..]);
    assert q[..k] + q[k..] == q;
  }

  /**
   Strict FIFO, under every interleaving: the grant decisions followed by the waiters are
   the arrivals in order, readers and writers together, so nobody is ever overtaken.
   */
  lemma {:induction false} Fifo(s: State, steps: seq<Step>)
    requires Exec(s, steps).Some?
    ensures Order(Exec(s, steps).value) == Order(s) + Arrivals(steps)
    ensures |s.grants| <= |Exec(s, steps).value.grants|
    decreases |steps|
  {
    if steps == [] {
      assert Order(s) + [] == Order(s);
    } else {
      var u := Next(s, steps[0]);
      var first := if steps[0].Arrive? then [steps[0].job] else [];
      assert Order(u) == Order(s) + first && |s.grants| <= |u.grants| by { OrderStep(s, steps[0]); }
      Fifo(u, steps[1..]);
      Regroup(Order(s), first, Arrivals(steps[1..]));
    }
  }

  lemma Regroup<T>(a: seq<T>, b: seq<T>, c: seq<T>)
    ensures a + b + c == a + (b + c)
  {
  }

  // ---------------------------------------------------------------- units

  /** How often grant `p` gives back a unit. */
  function Completions(steps: seq<Step>, p: nat): nat {
    if steps == [] then 0
    else (if steps[0] == Complete(p) then 1 else 0) + Completions(steps[1..], p)
  }

  /** The units a granted job holds or is about to take. */
  function UnitsOf(g: Grant): nat {
    match g.phase
    case Signalled => g.job.cnt
    case Holding(left) => left
  }

  /**
   Conservation of units, under every interleaving: what a granted job holds plus what it
   has given back is what it was granted for, so it finishes after exactly as many
   completions as it has stripes.
   */
  lemma {:induction false} UnitsConserved(s: State, steps: seq<Step>, p: nat)
    requires p < |s.grants| && Exec(s, steps).Some?
    ensures var t := Exec(s, steps).value;
            && p < |t.grants| && t.grants[p].job == s.grants[p].job
            && UnitsOf(t.grants[p]) + Completions(steps, p) == UnitsOf(s.grants[p])
    decreases |steps|
  {
    if steps == [] {
    } else {
      UnitsStep(s, steps[0], p);
      UnitsConserved(Next(s, steps[0]), steps[1..], p);
    }
  }

  lemma UnitsStep(s: State, step: Step, p: nat)
    requires p < |s.grants| && Enabled(s, step)
    ensures var t := Next(s, step);
            && p < |t.grants| && t.grants[p].job == s.grants[p].job
            && UnitsOf(t.grants[p]) + (if step == Complete(p) then 1 else 0) == UnitsOf(s.grants[p])
  {
  }

  // ---------------------------------------------------------------- drain and starvation

  /** Steps still to come from a granted job: its stripes, and its resumption if it sleeps. */
  function GrantWork(g: Grant): nat {
    match g.phase
    case Signalled => g.job.cnt + 1
    case Holding(left) => left
  }

  function JobWork(j: Job): nat { j.cnt + 1 }

  /** The steps that all granted jobs and the first `k` waiters still need. */
  function WorkAhead(s: State, k: nat): nat
    requires k <= |s.lock.queue|
  {
    Total(GrantWork, s.grants) + Total(JobWork, s.lock.queue[..k])
  }

  function NonArrivals(steps: seq<Step>): nat {
    if steps == [] then 0
    else (if steps[0].Arrive? then 0 else 1) + NonArrivals(steps[1..])
  }

  lemma {:induction false} WakeWork(q: seq<Job>)
    ensures Total(GrantWork, Wake(q)) == Total(JobWork, q)
  {
    if q == [] {
    } else {
      WakeWork(q[1..]);
      assert Wake(q)[1..] == Wake(q[1..]);
    }
  }

  lemma GiveBackWork(s: State, p: nat)
    requires Enabled(s, Complete(p))
    ensures var b := Popped(s.lock, s.grants[p].job.read);
            Total(GrantWork, Next(s, Complete(p)).grants) + 1 ==
            Total(GrantWork, s.grants) + Total(JobWork, s.lock.queue[..b])
  {
    var b := Popped(s.lock, s.grants[p].job.read);
    TotalUpdate(GrantWork, s.grants, p, GiveBack(s.grants, p)[p]);
    TotalConcat(GrantWork, GiveBack(s.grants, p), Wake(s.lock.queue[..b]));
    WakeWork(s.lock.queue[..b]);
  }

  /** The job with place `n` in arrival order is still waiting. */
  predicate Waits(s: State, n: nat) { |s.grants| <= n < |s.grants| + |s.lock.queue| }

  /** The work ahead of it, its own included. */
  function WorkUpTo(s: State, n: nat): nat
    requires Waits(s, n)
  {
    WorkAhead(s, n + 1 - |s.grants|)
  }

  /**
   One step of the system is one step less of the work ahead of a waiter; newcomers add
   nothing, because they queue up behind it.
   */
  lemma WorkStep(s: State, step: Step, n: nat)
    requires Enabled(s, step) && Waits(s, n)
    ensures var t := Next(s, step);
            Waits(t, n) ==> WorkUpTo(t, n) + (if step.Arrive? then 0 else 1) == WorkUpTo(s, n)
    ensures Waits(Next(s, step), n) || n < |Next(s, step).grants|
  {
    var t, k := Next(s, step), n + 1 - |s.grants|;
    match step
    case Arrive(j) =>
      assert t.lock.queue[..k] == s.lock.queue[..k];
    case Resume(p) =>
      TotalUpdate(GrantWork, s.grants, p, t.grants[p]);
    case Complete(p) =>
      GiveBackWork(s, p);
      WorkComplete(s.lock.queue, Popped(s.lock, s.grants[p].job.read), k);
  }

  lemma WorkComplete(q: seq<Job>, b: nat, k: nat)
    requires b <= |q| && k <= |q|
    ensures b <= k ==> Total(JobWork, q[..k]) == Total(JobWork, q[..b]) + Total(JobWork, q[b..][..k - b])
  {
    if b <= k {
      assert q[..k] == q[..b] + q[b..][..k - b];
      TotalConcat(JobWork, q[..b], q[b..][..k - b]);
    }
  }

  lemma {:induction false} WorkRun(s: State, steps: seq<Step>, n: nat)
    requires Waits(s, n) && Exec(s, steps).Some?
    ensures var t := Exec(s, steps).value;
            Waits(t, n) ==> WorkUpTo(t, n) + NonArrivals(steps) == WorkUpTo(s, n)
    ensures Waits(Exec(s, steps).value, n) || n < |Exec(s, steps).value.grants|
    decreases |steps|
  {
    if steps == [] {
    } else {
      var u := Next(s, steps[0]);
      WorkStep(s, steps[0], n);
      if Waits(u, n) {
        WorkRun(u, steps[1..], n);
      } else {
        Fifo(u, steps[1..]);
      }
    }
  }

  /**
   No starvation, under every interleaving and with any number of new arrivals: whoever
   waits in `s` with `k` jobs up to and including itself is granted the lock once the work
   of the granted jobs and of those `k` has been stepped through.
   */
  lemma BoundedWait(s: State, steps: seq<Step>, k: nat)
    requires 0 < k <= |s.lock.queue|
    requires Exec(s, steps).Some?
    requires NonArrivals(steps) >= WorkAhead(s, k)
    ensures var t := Exec(s, steps).value;
            && |s.grants| + k <= |t.grants|
            && t.grants[|s.grants| + k - 1].job == s.lock.queue[k - 1]
  {
    var n := |s.grants| + k - 1;
    assert WorkUpTo(s, n) == WorkAhead(s, k);
    NoLongerWaits(s, steps, n);
    GrantedInTurn(s, steps, n);
  }

  lemma NoLongerWaits(s: State, steps: seq<Step>, n: nat)
    requires Waits(s, n) && Exec(s, steps).Some? && NonArrivals(steps) >= WorkUpTo(s, n)
    ensures n < |Exec(s, steps).value.grants|
  {
    WorkRun(s, steps, n);
    if Waits(Exec(s, steps).value, n) {
      OwnWorkLeft(Exec(s, steps).value, n);
    }
  }

  lemma OwnWorkLeft(s: State, n: nat)
    requires Waits(s, n)
    ensures WorkUpTo(s, n) > 0
  {
    TotalOne(JobWork, s.lock.queue[..n + 1 - |s.grants|], n - |s.grants|);
  }

  lemma GrantedInTurn(s: State, steps: seq<Step>, n: nat)
    requires Waits(s, n) && Exec(s, steps).Some? && n < |Exec(s, steps).value.grants|
    ensures Exec(s, steps).value.grants[n].job == s.lock.queue[n - |s.grants|]
  {
    Fifo(s, steps);
    assert Order(Exec(s, steps).value)[n] == Order(s)[n];
  }

  /** With no arrivals each step is exactly one unit of the remaining work. */
  lemma {:induction false} DrainMeasure(s: State, steps: seq<Step>)
    requires Exec(s, steps).Some? && Arrivals(steps) == []
    ensures var t := Exec(s, steps).value;
            WorkAhead(t, |t.lock.queue|) + |steps| == WorkAhead(s, |s.lock.queue|)
    decreases |steps|
  {
    if steps == [] {
    } else {
      var t := Next(s, steps[0]);
      assert !steps[0].Arrive?;
      match steps[0] {
        case Resume(p) =>
          TotalUpdate(GrantWork, s.grants, p, t.grants[p]);
          assert t.lock.queue[..|t.lock.queue|] == s.lock.queue[..|s.lock.queue|];
        case Complete(p) =>
          var b := Popped(s.lock, s.grants[p].job.read);
          GiveBackWork(s, p);
          assert s.lock.queue[..|s.lock.queue|] == s.lock.queue[..b] + s.lock.queue[b..];
          TotalConcat(JobWork, s.lock.queue[..b], s.lock.queue[b..]);
          assert t.lock.queue[..|t.lock.queue|] == s.lock.queue[b..];
      }
      DrainMeasure(t, steps[1..]);
    }
  }

  /**
   Drain termination, under every interleaving: from any reachable state, a run without
   arrivals has at most `WorkAhead` steps, and it can be extended exactly until that many
   steps have been taken; then nobody waits, every job that ever arrived has been granted
   and has finished, and no unit is outstanding.
   */
  lemma Drain(before: seq<Step>, steps: seq<Step>)
    requires Exec(INIT, before).Some? && Exec(Exec(INIT, before).value, steps).Some?
    requires Arrivals(steps) == []
    ensures var s := Exec(INIT, before).value;
            var t := Exec(s, steps).value;
            && |steps| <= WorkAhead(s, |s.lock.queue|)
            && (|steps| < WorkAhead(s, |s.lock.queue|) <==> CanProgress(t))
            && (|steps| == WorkAhead(s, |s.lock.queue|) ==>
                  && t.lock.queue == []
                  && t.lock.rcnt == 0 && t.lock.wcnt <= 0
                  && Jobs(t.grants) == Arrivals(before)
                  && forall p | 0 <= p < |t.grants| :: t.grants[p].phase == Holding(0))
  {
    var s := Exec(INIT, before).value;
    var t := Exec(s, steps).value;
    InvReachable(before);
    InvRun(s, steps);
    DrainMeasure(s, steps);
    Fifo(INIT, before);
    Fifo(s, steps);
    WorkLeft(t);
    if !CanProgress(t) {
      QuietState(t);
      assert Order(t) == Order(s) + [] == Arrivals(before);
    }
  }

  lemma WorkLeft(s: State)
    requires Inv(s)
    ensures WorkAhead(s, |s.lock.queue|) > 0 <==> CanProgress(s)
  {
    TotalZero(GrantWork, s.grants);
    var q := s.lock.queue[..|s.lock.queue|];
    TotalZero(JobWork, q);
    if CanProgress(s) {
      var p: nat :| p < |s.grants| && Active(s.grants[p]);
      assert GrantWork(s.grants[p]) > 0;
    } else if s.lock.queue != [] {
      WaitingCanProgress(s);
    } else {
      assert forall p | 0 <= p < |s.grants| :: !Active(s.grants[p]);
    }
  }

  lemma QuietState(s: State)
    requires Inv(s) && !CanProgress(s)
    ensures s.lock.queue == [] && s.lock.rcnt == 0 && s.lock.wcnt <= 0
    ensures forall p | 0 <= p < |s.grants| :: s.grants[p].phase == Holding(0)
  {
    if s.lock.queue != [] {
      WaitingCanProgress(s);
    }
    assert forall p | 0 <= p < |s.grants| :: !Active(s.grants[p]);
    TotalZero(ReadUnits, s.grants);
    TotalZero(WriteUnits, s.grants);
  }

  /**
   A reader that gives back fewer completions than it holds units keeps every later writer
   waiting, under every interleaving.
   */
  lemma KeptUnitBlocksWriters(before: seq<Step>, steps: seq<Step>, p: nat)
    requires Exec(INIT, before).Some? && Exec(Exec(INIT, before).value, steps).Some?
    requires p < |Exec(INIT, before).value.grants|
    requires var g := Exec(INIT, before).value.grants[p];
             g.job.read && g.phase.Holding? && Completions(steps, p) < g.phase.left
    ensures forall j: Job | !j.read :: MustWait(Exec(Exec(INIT, before).value, steps).value.lock, j)
  {
    var s := Exec(INIT, before).value;
    var t := Exec(s, steps).value;
    InvReachable(before);
    InvRun(s, steps);
    UnitsConserved(s, steps, p);
    StaysHolding(s, steps, p);
    TotalOne(ReadUnits, t.grants, p);
  }

  /** A job that holds the lock, or has finished with it, does not go back to sleep. */
  lemma {:induction false} StaysHolding(s: State, steps: seq<Step>, p: nat)
    requires p < |s.grants| && s.grants[p].phase.Holding? && Exec(s, steps).Some?
    ensures p < |Exec(s, steps).value.grants| && Exec(s, steps).value.grants[p].phase.Holding?
    decreases |steps|
  {
    if steps == [] {
    } else {
      StaysHolding(Next(s, steps[0]), steps[1..], p);
    }
  }

  // ---------------------------------------------------------------- what a job does to the counters

  /** The job that takes the lock in this step, if one does. */
  function Taking(s: State, step: Step): Option<Job>
    requires Enabled(s, step)
  {
    match step
    case Arrive(j) => if s.lock.wcnt > 0 || (!j.read && s.lock.rcnt > 0) || s.lock.queue != [] then None else Some(j)
    case Resume(p) => Some(s.grants[p].job)
    case Complete(p) => None
  }

  /**
   Each step on the counters, in any state: a reader that takes the lock adds its units, a
   writer's units replace whatever the counter was, a completion takes one off its own
   counter, and a job that goes to sleep changes neither.
   */
  lemma CountersAfter(s: State, step: Step)
    requires Enabled(s, step)
    ensures var l, now := s.lock, Next(s, step).lock;
            match Taking(s, step)
            case Some(j) =>
              && now.rcnt == (if j.read then l.rcnt + j.cnt else l.rcnt)
              && now.wcnt == (if j.read then l.wcnt else j.cnt)
              && now.queue == l.queue
            case None =>
              if step.Complete? then
                var read := s.grants[step.p].job.read;
                now.rcnt == l.rcnt - (if read then 1 else 0) && now.wcnt == l.wcnt - (if read then 0 else 1)
              else now == Lock(l.rcnt, l.wcnt, l.queue + [step.job])
  {
  }

  /** What the counter showed each time that a writer overwrote it, in all. */
  function Overwritten(s: State, steps: seq<Step>): int
    requires Exec(s, steps).Some?
    decreases |steps|
  {
    if steps == [] then 0
    else
      var taking := Taking(s, steps[0]);
      (if taking.Some? && !taking.value.read then s.lock.wcnt else 0) + Overwritten(Next(s, steps[0]), steps[1..])
  }

  /**
   The write counter after every run, exactly: the unfinished stripes of all writers, less
   what was overwritten on the way.  So it is too low by just that, and negative in the end
   if the sum is positive.
   */
  lemma {:induction false} WriteCounterExactly(s: State, steps: seq<Step>)
    requires Exec(s, steps).Some?
    ensures var t := Exec(s, steps).value;
            t.lock.wcnt - Outstanding(t.grants, false) + Overwritten(s, steps) ==
            s.lock.wcnt - Outstanding(s.grants, false)
    decreases |steps|
  {
    if steps == [] {
    } else {
      CountersAfter(s, steps[0]);
      OutstandingStep(s, steps[0], false);
      WriteCounterExactly(Next(s, steps[0]), steps[1..]);
    }
  }

  /** From the start: the counter and the stripes differ by what was overwritten. */
  lemma WriteCounter(steps: seq<Step>)
    requires Exec(INIT, steps).Some?
    ensures var t := Exec(INIT, steps).value;
            t.lock.wcnt == Outstanding(t.grants, false) - Overwritten(INIT, steps)
  {
    WriteCounterExactly(INIT, steps);
  }

  const ONE := Job(false, 1)

  function Writers(lefts: seq<nat>): (gs: seq<Grant>)
    ensures |gs| == |lefts| && forall i | 0 <= i < |lefts| :: gs[i] == Grant(ONE, Holding(lefts[i]))
  {
    seq(|lefts|, i requires 0 <= i < |lefts| => Grant(ONE, Holding(lefts[i])))
  }

  /** A third writer slips in before the signalled one resumes, and both finish. */
  const SLIPPED: seq<Step> :=
    [Arrive(ONE)] + ([Arrive(ONE)] + ([Complete(0)] + ([Arrive(ONE)] + ([Resume(1)] +
    ([Complete(1)] + ([Complete(2)] + []))))))

  /** The resuming writer overwrites the other one's unit, and the free lock ends at -1. */
  lemma CounterCanEndNegative()
    ensures Exec(INIT, SLIPPED) == Some(State(Lock(0, -1, []), Writers([0, 0, 0])))
  {
    var gap := State(Lock(0, 0, []), Writers([0]) + [Grant(ONE, Signalled)]);
    var rest := [Arrive(ONE)] + ([Resume(1)] + ([Complete(1)] + ([Complete(2)] + [])));
    SlipUpToGap(gap, rest);
    var both := State(Lock(0, 1, []), Writers([0, 1, 1]));
    var one := State(Lock(0, 0, []), Writers([0, 0, 1]));
    var end := State(Lock(0, -1, []), Writers([0, 0, 0]));
    var last: seq<Step> := [Complete(2)] + [];
    var s4 := Next(gap, Arrive(ONE));
    assert s4.lock == Lock(0, 1, []) && s4.grants == gap.grants + [Grant(ONE, Holding(1))];
    assert Next(s4, Resume(1)) == both;
    assert Next(both, Complete(1)) == one;
    assert Next(one, Complete(2)) == end;
    ExecFirst(gap, Arrive(ONE), [Resume(1)] + ([Complete(1)] + last));
    ExecFirst(s4, Resume(1), [Complete(1)] + last);
    ExecFirst(both, Complete(1), last);
    ExecFirst(one, Complete(2), []);
  }

  lemma SlipUpToGap(gap: State, rest: seq<Step>)
    requires gap == State(Lock(0, 0, []), Writers([0]) + [Grant(ONE, Signalled)])
    ensures Exec(INIT, [Arrive(ONE)] + ([Arrive(ONE)] + ([Complete(0)] + rest))) == Exec(gap, rest)
  {
    var s1 := State(Lock(0, 1, []), Writers([1]));
    var s2 := State(Lock(0, 1, [ONE]), Writers([1]));
    assert Next(INIT, Arrive(ONE)) == s1;
    assert Next(s1, Arrive(ONE)) == s2;
    assert Wake([ONE]) == [Grant(ONE, Signalled)];
    assert GiveBack(s2.grants, 0) == Writers([0]);
    assert Next(s2, Complete(0)) == gap;
    ExecFirst(INIT, Arrive(ONE), [Arrive(ONE)] + ([Complete(0)] + rest));
    ExecFirst(s1, Arrive(ONE), [Complete(0)] + rest);
    ExecFirst(s2, Complete(0), rest);
  }
}
