/**
 Mutual exclusion and exact counting for the file lock.  They fail on some runs, because
 a signalled waiter is out of the queue but not yet in a counter, and it does not look at
 the counters again when it resumes.  Two conflicting jobs never hold the lock together on
 exactly the runs on which every resumption finds the counters clear.  They are never even
 granted together, one of them possibly asleep, on exactly the runs without a grant over a
 conflicting sleeper; these are fewer, and they are the ones on which batches of waiters
 are what they should be.
 */
module Exclusion {
  import opened Sums
  import opened RwLock

  predicate Conflict(a: Job, b: Job) { !a.read || !b.read }

  /** No two granted and unfinished jobs conflict. */
  predicate Exclusive(s: State) {
    forall p, q | 0 <= p < q < |s.grants| && Active(s.grants[p]) && Active(s.grants[q]) ::
      !Conflict(s.grants[p].job, s.grants[q].job)
  }

  /** `j` can be granted next to everyone who has been signalled but still sleeps. */
  predicate ClearOfSignalled(gs: seq<Grant>, j: Job) {
    forall p | 0 <= p < |gs| && IsSignalled(gs[p]) :: !Conflict(gs[p].job, j)
  }

  /**
   The condition on a step, checkable before it: it must not grant the lock over a
   signalled job that conflicts with the newcomer.
   */
  predicate SafeStep(s: State, step: Step)
    requires Enabled(s, step)
  {
    match step
    case Arrive(j) => MustWait(s.lock, j) || ClearOfSignalled(s.grants, j)
    case Resume(p) => true
    case Complete(p) =>
      Popped(s.lock, s.grants[p].job.read) == 0 || ClearOfSignalled(s.grants, s.lock.queue[0])
  }

  predicate AllSafe(s: State, steps: seq<Step>)
    requires Exec(s, steps).Some?
    decreases |steps|
  {
    steps == [] || (SafeStep(s, steps[0]) && AllSafe(Next(s, steps[0]), steps[1..]))
  }

  predicate AlwaysExclusive(s: State, steps: seq<Step>)
    requires Exec(s, steps).Some?
    decreases |steps|
  {
    Exclusive(s) && (steps == [] || AlwaysExclusive(Next(s, steps[0]), steps[1..]))
  }

  /** Every signalled job resumes before any other step on the file. */
  predicate HandOff(s: State, steps: seq<Step>)
    requires Exec(s, steps).Some?
    decreases |steps|
  {
    steps == [] ||
    ((AnySignalled(s.grants) ==> steps[0].Resume?) && HandOff(Next(s, steps[0]), steps[1..]))
  }

  // ---------------------------------------------------------------- the invariant

  /** Whoever is granted later than an unfinished job `p` reads beside it. */
  predicate InOrder(gs: seq<Grant>) {
    forall p, q | 0 <= p < q < |gs| && Active(gs[p]) :: !Conflict(gs[p].job, gs[q].job)
  }

  predicate SomeActive(gs: seq<Grant>) {
    exists p | 0 <= p < |gs| :: Active(gs[p])
  }

  predicate WriterActive(gs: seq<Grant>) {
    exists p | 0 <= p < |gs| :: Active(gs[p]) && !gs[p].job.read
  }

  /** What the safe runs keep beyond `RwLock.Inv`. */
  predicate Strong(s: State) {
    && Inv(s)
    && InOrder(s.grants)
    && s.lock.wcnt == Outstanding(s.grants, false)
    && (s.lock.queue != [] ==> SomeActive(s.grants))
    && (s.lock.queue != [] && s.lock.queue[0].read ==> WriterActive(s.grants))
  }

  lemma InitIsStrong()
    ensures Strong(INIT)
  {
  }

  lemma CountersSeeHolders(s: State, p: nat)
    requires Strong(s) && p < |s.grants| && s.grants[p].phase.Holding? && s.grants[p].phase.left > 0
    ensures if s.grants[p].job.read then s.lock.rcnt >= s.grants[p].phase.left
            else s.lock.wcnt >= s.grants[p].phase.left
  {
    TotalOne(ReadUnits, s.grants, p);
    TotalOne(WriteUnits, s.grants, p);
  }

  /** A positive counter means that someone holds the lock in that mode. */
  lemma CountersHaveHolders(s: State)
    requires Strong(s)
    ensures s.lock.rcnt > 0 ==> SomeActive(s.grants)
    ensures s.lock.wcnt > 0 ==> WriterActive(s.grants)
  {
    TotalZero(ReadUnits, s.grants);
    TotalZero(WriteUnits, s.grants);
    if s.lock.rcnt > 0 {
      var p :| 0 <= p < |s.grants| && ReadUnits(s.grants[p]) > 0;
      assert Active(s.grants[p]);
    }
    if s.lock.wcnt > 0 {
      var p :| 0 <= p < |s.grants| && WriteUnits(s.grants[p]) > 0;
      assert Active(s.grants[p]) && !s.grants[p].job.read;
    }
  }

  /** The last unit of a counter is given back only when no other job holds the lock at all. */
  lemma LastUnitIsAlone(s: State, p: nat, q: nat)
    requires Strong(s) && Enabled(s, Complete(p)) && Drains(s.lock, s.grants[p].job.read)
    requires q < |s.grants| && q != p && Active(s.grants[q])
    ensures IsSignalled(s.grants[q])
  {
    var i, j := if p < q then p else q, if p < q then q else p;
    TotalTwo(ReadUnits, s.grants, i, j);
    TotalTwo(WriteUnits, s.grants, i, j);
    assert Active(s.grants[p]);
  }

  lemma LastUnit(s: State, p: nat)
    requires Strong(s) && Enabled(s, Complete(p)) && Drains(s.lock, s.grants[p].job.read)
    ensures s.grants[p].phase.left == 1
  {
    TotalOne(ReadUnits, s.grants, p);
    TotalOne(WriteUnits, s.grants, p);
  }

  /** The waiters that one release signals never conflict with each other. */
  lemma BatchIsCompatible(q: seq<Job>, i: nat, j: nat)
    requires i < j < BatchSize(q)
    ensures !Conflict(q[i], q[j])
  {
  }

  lemma {:induction false} SafeArrive(s: State, j: Job)
    requires Strong(s) && Enabled(s, Arrive(j)) && SafeStep(s, Arrive(j))
    ensures Strong(Next(s, Arrive(j)))
  {
    var t := Next(s, Arrive(j));
    InvStep(s, Arrive(j));
    OutstandingStep(s, Arrive(j), false);
    CountersHaveHolders(s);
    if MustWait(s.lock, j) {
      assert t.grants == s.grants;
    } else {
      forall p | 0 <= p < |s.grants| && Active(s.grants[p])
        ensures !Conflict(s.grants[p].job, j)
      {
        if !IsSignalled(s.grants[p]) { CountersSeeHolders(s, p); }
      }
      assert forall p | 0 <= p < |s.grants| :: t.grants[p] == s.grants[p];
    }
  }

  lemma {:induction false} SafeResume(s: State, p: nat)
    requires Strong(s) && Enabled(s, Resume(p))
    ensures Strong(Next(s, Resume(p)))
  {
    var t := Next(s, Resume(p));
    var g := s.grants[p];
    InvStep(s, Resume(p));
    OutstandingStep(s, Resume(p), false);
    assert Active(t.grants[p]) && Active(g);
    assert forall q | 0 <= q < |s.grants| && q != p :: t.grants[q] == s.grants[q];
    if !g.job.read {
      // the writer that resumes is the only unfinished job, so nothing is overwritten
      assert forall q | 0 <= q < |s.grants| :: WriteUnits(s.grants[q]) > 0 ==> Active(s.grants[q]);
      TotalZero(WriteUnits, s.grants);
    }
    if WriterActive(s.grants) {
      var q :| 0 <= q < |s.grants| && Active(s.grants[q]) && !s.grants[q].job.read;
      assert Active(t.grants[q]) && !t.grants[q].job.read;
    }
  }

  lemma BatchIsLikeHead(q: seq<Job>, i: nat)
    requires i < BatchSize(q)
    ensures q[i].read == q[0].read
  {
  }

  /** A safe release that signals somebody leaves nobody else granted and unfinished. */
  lemma NobodyElse(s: State, p: nat)
    requires Strong(s) && Enabled(s, Complete(p)) && SafeStep(s, Complete(p))
    requires Popped(s.lock, s.grants[p].job.read) > 0
    ensures forall q | 0 <= q < |s.grants| :: !Active(GiveBack(s.grants, p)[q])
  {
    LastUnit(s, p);
    assert Active(s.grants[p]);
    forall q | 0 <= q < |s.grants| && q != p ensures !Active(s.grants[q]) {
      if Active(s.grants[q]) {
        LastUnitIsAlone(s, p, q);
      }
    }
  }

  lemma SafeCompleteOrder(s: State, p: nat)
    requires Strong(s) && Enabled(s, Complete(p)) && SafeStep(s, Complete(p))
    ensures InOrder(Next(s, Complete(p)).grants)
  {
    var t := Next(s, Complete(p));
    var n := |s.grants|;
    forall a, b | 0 <= a < b < |t.grants| && Active(t.grants[a])
      ensures !Conflict(t.grants[a].job, t.grants[b].job)
    {
      if b < n {
        assert Active(s.grants[a]);
      } else if a < n {
        NobodyElse(s, p);
        assert false;
      } else {
        BatchIsCompatible(s.lock.queue, a - n, b - n);
      }
    }
  }

  lemma SafeComplete(s: State, p: nat)
    requires Strong(s) && Enabled(s, Complete(p)) && SafeStep(s, Complete(p))
    ensures Strong(Next(s, Complete(p)))
  {
    var t := Next(s, Complete(p));
    var n := |s.grants|;
    var k := Popped(s.lock, s.grants[p].job.read);
    InvStep(s, Complete(p));
    OutstandingStep(s, Complete(p), false);
    SafeCompleteOrder(s, p);
    if k > 0 {
      BatchIsLikeHead(s.lock.queue, 0);
      assert Active(t.grants[n]);
    } else if s.lock.queue != [] {
      StillActive(s, p);
    }
  }

  /** A release that signals nobody while somebody waits leaves the lock held in the same mode. */
  lemma StillActive(s: State, p: nat)
    requires Strong(s) && Enabled(s, Complete(p)) && s.lock.queue != []
    requires !Drains(s.lock, s.grants[p].job.read)
    ensures SomeActive(Next(s, Complete(p)).grants)
    ensures s.lock.queue[0].read ==> WriterActive(Next(s, Complete(p)).grants)
  {
    var t := Next(s, Complete(p));
    var read := s.grants[p].job.read;
    OutstandingStep(s, Complete(p), read);
    assert Active(s.grants[p]);
    TotalOne(ReadUnits, s.grants, p);
    TotalOne(WriteUnits, s.grants, p);
    TotalZero(ReadUnits, t.grants);
    TotalZero(WriteUnits, t.grants);
    var q :| 0 <= q < |t.grants| && (if read then ReadUnits(t.grants[q]) else WriteUnits(t.grants[q])) > 0;
    assert Active(t.grants[q]);
    if s.lock.queue[0].read {
      var w :| 0 <= w < |s.grants| && Active(s.grants[w]) && !s.grants[w].job.read;
      assert w == p;
    }
  }

  lemma SafeKeepsStrong(s: State, step: Step)
    requires Strong(s) && Enabled(s, step) && SafeStep(s, step)
    ensures Strong(Next(s, step))
  {
    match step
    case Arrive(j) => SafeArrive(s, j);
    case Resume(p) => SafeResume(s, p);
    case Complete(p) => SafeComplete(s, p);
  }

  lemma UnsafeBreaks(s: State, step: Step)
    requires Strong(s) && Enabled(s, step) && !SafeStep(s, step)
    ensures !Exclusive(Next(s, step))
  {
    var t := Next(s, step);
    var n := |s.grants|;
    var j := if step.Arrive? then step.job else s.lock.queue[0];
    var p :| 0 <= p < n && IsSignalled(s.grants[p]) && Conflict(s.grants[p].job, j);
    assert t.grants[n].job == j && Active(t.grants[n]);
    assert t.grants[p] == s.grants[p] && Active(t.grants[p]);
  }

  // ---------------------------------------------------------------- runs

  lemma {:induction false} SafeRun(s: State, steps: seq<Step>)
    requires Strong(s) && Exec(s, steps).Some? && AllSafe(s, steps)
    ensures Strong(Exec(s, steps).value)
    decreases |steps|
  {
    if steps == [] {
    } else {
      SafeKeepsStrong(s, steps[0]);
      SafeRun(Next(s, steps[0]), steps[1..]);
    }
  }

  lemma {:induction false} ExclusiveIffSafe(s: State, steps: seq<Step>)
    requires Strong(s) && Exec(s, steps).Some?
    ensures AlwaysExclusive(s, steps) <==> AllSafe(s, steps)
    decreases |steps|
  {
    assert Exclusive(s);
    if steps == [] {
    } else {
      if SafeStep(s, steps[0]) {
        SafeKeepsStrong(s, steps[0]);
        ExclusiveIffSafe(Next(s, steps[0]), steps[1..]);
      } else {
        UnsafeBreaks(s, steps[0]);
      }
    }
  }

  /**
   Exclusion holds throughout a run if and only if no step of the run grants the lock
   over a conflicting job that has been signalled and still sleeps.
   */
  lemma ExclusionExactly(steps: seq<Step>)
    requires Exec(INIT, steps).Some?
    ensures AlwaysExclusive(INIT, steps) <==> AllSafe(INIT, steps)
  {
    ExclusiveIffSafe(INIT, steps);
  }

  lemma {:induction false} HandOffIsSafe(s: State, steps: seq<Step>)
    requires Exec(s, steps).Some? && HandOff(s, steps)
    ensures AllSafe(s, steps)
    decreases |steps|
  {
    if steps == [] {
    } else {
      HandOffIsSafe(Next(s, steps[0]), steps[1..]);
    }
  }

  /**
   Mutual exclusion and exact counting after any safe run (so after any hand-off run):
   readers and a writer never hold together, two writers never do, a writer's counter is
   the number of its own unfinished stripes, and both counters are zero when nobody holds.
   */
  lemma MutualExclusion(steps: seq<Step>)
    requires Exec(INIT, steps).Some?
    requires AllSafe(INIT, steps) || HandOff(INIT, steps)
    ensures var s := Exec(INIT, steps).value;
            && !(s.lock.rcnt > 0 && s.lock.wcnt > 0)
            && s.lock.rcnt == Outstanding(s.grants, true)
            && s.lock.wcnt == Outstanding(s.grants, false)
            && (forall p, q | 0 <= p < q < |s.grants| && Active(s.grants[p]) && Active(s.grants[q]) ::
                  s.grants[p].job.read && s.grants[q].job.read)
            && (forall p | 0 <= p < |s.grants| && !s.grants[p].job.read && s.grants[p].phase.Holding? ::
                  s.grants[p].phase.left > 0 ==> s.lock.wcnt == s.grants[p].phase.left && s.lock.rcnt == 0)
            && (!SomeActive(s.grants) ==> s.lock == FREE)
  {
    if HandOff(INIT, steps) {
      HandOffIsSafe(INIT, steps);
    }
    SafeRun(INIT, steps);
    var s := Exec(INIT, steps).value;
    NotBoth(s);
    forall p | 0 <= p < |s.grants| && !s.grants[p].job.read && s.grants[p].phase.Holding? && s.grants[p].phase.left > 0
      ensures s.lock.wcnt == s.grants[p].phase.left && s.lock.rcnt == 0
    {
      LoneWriter(s, p);
    }
    if !SomeActive(s.grants) {
      assert forall p | 0 <= p < |s.grants| :: !Active(s.grants[p]);
      TotalZero(ReadUnits, s.grants);
      TotalZero(WriteUnits, s.grants);
    }
  }

  lemma LoneWriter(s: State, p: nat)
    requires Strong(s) && p < |s.grants| && !s.grants[p].job.read
    requires s.grants[p].phase.Holding? && s.grants[p].phase.left > 0
    ensures s.lock.wcnt == s.grants[p].phase.left && s.lock.rcnt == 0
  {
    assert Active(s.grants[p]);
    assert forall q | 0 <= q < |s.grants| && q != p :: !Active(s.grants[q]);
    TotalSplit(WriteUnits, s.grants, p);
    TotalZero(WriteUnits, s.grants[..p]);
    TotalZero(WriteUnits, s.grants[p+1..]);
    TotalZero(ReadUnits, s.grants);
  }

  lemma NotBoth(s: State)
    requires Strong(s)
    ensures !(s.lock.rcnt > 0 && s.lock.wcnt > 0)
  {
    if s.lock.wcnt > 0 {
      TotalZero(WriteUnits, s.grants);
      var p :| 0 <= p < |s.grants| && WriteUnits(s.grants[p]) > 0;
      LoneWriter(s, p);
    }
  }

  /**
   What giving back a unit of grant `p` signals: `k` waiters from the front of the queue,
   some exactly if the counter is now zero and somebody waited; a writer alone, or the
   longest prefix of readers.
   */
  ghost predicate SignalsBatch(s: State, p: nat)
    requires Enabled(s, Complete(p))
  {
    var t, q, read := Next(s, Complete(p)), s.lock.queue, s.grants[p].job.read;
    var k := |t.grants| - |s.grants|;
    && 0 <= k <= |q| && t.lock.queue == q[k..]
    && (forall i | 0 <= i < k :: t.grants[|s.grants| + i] == Grant(q[i], Signalled))
    && (k > 0 <==> q != [] && (if read then t.lock.rcnt == 0 else t.lock.wcnt == 0))
    && (k > 0 && !q[0].read ==> k == 1)
    && (k > 0 && q[0].read ==> (forall i | 0 <= i < k :: q[i].read) && (k < |q| ==> !q[k].read))
  }

  lemma BatchSignalled(s: State, p: nat)
    requires Enabled(s, Complete(p))
    ensures var t, k := Next(s, Complete(p)), Popped(s.lock, s.grants[p].job.read);
            && |t.grants| == |s.grants| + k
            && (forall i | 0 <= i < k :: t.grants[|s.grants| + i] == Grant(s.lock.queue[i], Signalled))
  {
    var t, k := Next(s, Complete(p)), Popped(s.lock, s.grants[p].job.read);
    assert t.grants == GiveBack(s.grants, p) + Wake(s.lock.queue[..k]);
  }

  lemma BatchShape(l: Lock, read: bool)
    ensures var k, q := Popped(l, read), l.queue;
            && Release(l, read).queue == q[k..]
            && (k > 0 <==> q != [] && (if read then Release(l, read).rcnt == 0 else Release(l, read).wcnt == 0))
            && (k > 0 && !q[0].read ==> k == 1)
            && (k > 0 && q[0].read ==> (forall i | 0 <= i < k :: q[i].read) && (k < |q| ==> !q[k].read))
  {
  }

  /** Batch release, on every run: a release signals one writer, the longest prefix of readers, or nobody. */
  lemma BatchRelease(s: State, p: nat)
    requires Enabled(s, Complete(p))
    ensures SignalsBatch(s, p)
  {
    BatchSignalled(s, p);
    BatchShape(s.lock, s.grants[p].job.read);
  }

  /**
   After any safe run a reader at the head means that only a writer can give back a unit,
   so the last reader to finish always finds a writer at the head or nobody.
   */
  lemma LastReaderFindsWriter(steps: seq<Step>, p: nat)
    requires Exec(INIT, steps).Some?
    requires AllSafe(INIT, steps) || HandOff(INIT, steps)
    requires Enabled(Exec(INIT, steps).value, Complete(p)) && Exec(INIT, steps).value.grants[p].job.read
    ensures var q := Exec(INIT, steps).value.lock.queue; q == [] || !q[0].read
  {
    if HandOff(INIT, steps) {
      HandOffIsSafe(INIT, steps);
    }
    SafeRun(INIT, steps);
    ReaderHoldsNoReaderWaits(Exec(INIT, steps).value, p);
  }

  lemma ReaderHoldsNoReaderWaits(s: State, p: nat)
    requires Strong(s) && p < |s.grants| && Active(s.grants[p]) && s.grants[p].job.read
    ensures s.lock.queue == [] || !s.lock.queue[0].read
  {
  }

  // ---------------------------------------------------------------- holding together

  predicate Holds(g: Grant) { g.phase.Holding? && g.phase.left > 0 }

  /** No two conflicting jobs hold the lock together. */
  predicate HoldersExclusive(s: State) {
    forall p, q | 0 <= p < q < |s.grants| && Holds(s.grants[p]) && Holds(s.grants[q]) ::
      !Conflict(s.grants[p].job, s.grants[q].job)
  }

  /**
   The condition on a step, checkable before it: a sleeper that resumes finds the counters
   as the guard of `wait_lock` would have wanted them.  The code does not look.
   */
  predicate ClearStep(s: State, step: Step)
    requires Enabled(s, step)
  {
    step.Resume? ==> !HeldAgainst(s.lock, s.grants[step.p].job)
  }

  predicate AllClear(s: State, steps: seq<Step>)
    requires Exec(s, steps).Some?
    decreases |steps|
  {
    steps == [] || (ClearStep(s, steps[0]) && AllClear(Next(s, steps[0]), steps[1..]))
  }

  predicate HoldersAlwaysExclusive(s: State, steps: seq<Step>)
    requires Exec(s, steps).Some?
    decreases |steps|
  {
    HoldersExclusive(s) && (steps == [] || HoldersAlwaysExclusive(Next(s, steps[0]), steps[1..]))
  }

  /** What the clear runs keep beyond `RwLock.Inv`. */
  predicate Tallied(s: State) {
    && Inv(s)
    && HoldersExclusive(s)
    && s.lock.wcnt == Outstanding(s.grants, false)
  }

  /** A counter is positive exactly if somebody holds the lock in that mode. */
  lemma HeldByReader(s: State)
    requires Inv(s)
    ensures s.lock.rcnt > 0 <==> exists p :: 0 <= p < |s.grants| && Holds(s.grants[p]) && s.grants[p].job.read
  {
    TotalZero(ReadUnits, s.grants);
    if s.lock.rcnt > 0 {
      var p :| 0 <= p < |s.grants| && ReadUnits(s.grants[p]) > 0;
      assert Holds(s.grants[p]);
    }
    if p :| 0 <= p < |s.grants| && Holds(s.grants[p]) && s.grants[p].job.read {
      assert ReadUnits(s.grants[p]) > 0;
    }
  }

  lemma HeldByWriter(s: State)
    requires s.lock.wcnt <= Outstanding(s.grants, false)
    ensures s.lock.wcnt > 0 ==> exists p :: 0 <= p < |s.grants| && Holds(s.grants[p]) && !s.grants[p].job.read
    ensures s.lock.wcnt == Outstanding(s.grants, false) && s.lock.wcnt <= 0 ==>
              forall p | 0 <= p < |s.grants| && Holds(s.grants[p]) :: s.grants[p].job.read
  {
    TotalZero(WriteUnits, s.grants);
    if s.lock.wcnt > 0 {
      var p :| 0 <= p < |s.grants| && WriteUnits(s.grants[p]) > 0;
      assert Holds(s.grants[p]);
    }
    if s.lock.wcnt == Outstanding(s.grants, false) && s.lock.wcnt <= 0 {
      forall p | 0 <= p < |s.grants| && Holds(s.grants[p]) ensures s.grants[p].job.read {
        assert WriteUnits(s.grants[p]) == 0;
      }
    }
  }

  /** A job that does not find the counters against it conflicts with no holder. */
  lemma NoHolderAgainst(s: State, j: Job)
    requires Tallied(s) && !HeldAgainst(s.lock, j)
    ensures forall p | 0 <= p < |s.grants| && Holds(s.grants[p]) :: !Conflict(s.grants[p].job, j)
  {
    HeldByReader(s);
    HeldByWriter(s);
  }

  /** If the counters are against it, somebody holds the lock who conflicts with it. */
  lemma HolderAgainst(s: State, j: Job) returns (p: nat)
    requires Inv(s) && HeldAgainst(s.lock, j)
    ensures p < |s.grants| && Holds(s.grants[p]) && Conflict(s.grants[p].job, j)
  {
    HeldByReader(s);
    HeldByWriter(s);
    if s.lock.wcnt > 0 {
      p :| p < |s.grants| && Holds(s.grants[p]) && !s.grants[p].job.read;
    } else {
      p :| p < |s.grants| && Holds(s.grants[p]) && s.grants[p].job.read;
    }
  }

  /** Joining the holders next to whom it may hold keeps them exclusive. */
  lemma OneMoreHolder(gs: seq<Grant>, hs: seq<Grant>, n: nat)
    requires HoldersExclusive(State(FREE, gs)) && n < |hs|
    requires forall q | 0 <= q < |hs| && q != n && Holds(hs[q]) :: q < |gs| && Holds(gs[q]) && hs[q].job == gs[q].job
    requires Holds(hs[n]) ==> forall q | 0 <= q < |gs| && q != n && Holds(gs[q]) :: !Conflict(gs[q].job, hs[n].job)
    ensures HoldersExclusive(State(FREE, hs))
  {
  }

  lemma ClearKeepsHolders(s: State, step: Step)
    requires Tallied(s) && Enabled(s, step) && ClearStep(s, step)
    ensures HoldersExclusive(Next(s, step))
  {
    var t := Next(s, step);
    assert HoldersExclusive(State(FREE, s.grants));
    match step
    case Arrive(j) =>
      if !MustWait(s.lock, j) {
        NoHolderAgainst(s, j);
        OneMoreHolder(s.grants, t.grants, |s.grants|);
      }
    case Resume(p) =>
      NoHolderAgainst(s, s.grants[p].job);
      OneMoreHolder(s.grants, t.grants, p);
    case Complete(p) =>
      CompleteHolders(s, p);
      OneMoreHolder(s.grants, t.grants, p);
  }

  lemma CompleteHolders(s: State, p: nat)
    requires Enabled(s, Complete(p))
    ensures var t := Next(s, Complete(p));
            forall q | 0 <= q < |t.grants| && Holds(t.grants[q]) ::
              q < |s.grants| && Holds(s.grants[q]) && t.grants[q].job == s.grants[q].job
  {
    BatchSignalled(s, p);
  }

  lemma ClearKeepsTally(s: State, step: Step)
    requires Tallied(s) && Enabled(s, step) && ClearStep(s, step)
    ensures Tallied(Next(s, step))
  {
    InvStep(s, step);
    OutstandingStep(s, step, false);
    ClearKeepsHolders(s, step);
  }

  lemma UnclearBreaks(s: State, step: Step)
    requires Inv(s) && Enabled(s, step) && !ClearStep(s, step)
    ensures !HoldersExclusive(Next(s, step))
  {
    var t, p := Next(s, step), step.p;
    var q := HolderAgainst(s, s.grants[p].job);
    assert t.grants[q] == s.grants[q] && Holds(t.grants[p]) && t.grants[p].job == s.grants[p].job;
  }

  lemma {:induction false} ClearRun(s: State, steps: seq<Step>)
    requires Tallied(s) && Exec(s, steps).Some? && AllClear(s, steps)
    ensures Tallied(Exec(s, steps).value)
    decreases |steps|
  {
    if steps == [] {
    } else {
      ClearKeepsTally(s, steps[0]);
      ClearRun(Next(s, steps[0]), steps[1..]);
    }
  }

  lemma {:induction false} HoldersExclusiveIffClear(s: State, steps: seq<Step>)
    requires Tallied(s) && Exec(s, steps).Some?
    ensures HoldersAlwaysExclusive(s, steps) <==> AllClear(s, steps)
    decreases |steps|
  {
    if steps == [] {
    } else {
      var t := Next(s, steps[0]);
      if ClearStep(s, steps[0]) {
        ClearKeepsTally(s, steps[0]);
        HoldersExclusiveIffClear(t, steps[1..]);
      } else {
        UnclearBreaks(s, steps[0]);
        assert !HoldersAlwaysExclusive(t, steps[1..]);
      }
    }
  }

  /**
   Mutual exclusion, exactly: no two conflicting jobs hold the lock together at any moment
   of a run if and only if every sleeper that resumes on it finds no writer's unit
   outstanding and, if it is a writer itself, no reader's.
   */
  lemma HoldersExclusiveExactly(steps: seq<Step>)
    requires Exec(INIT, steps).Some?
    ensures HoldersAlwaysExclusive(INIT, steps) <==> AllClear(INIT, steps)
  {
    HoldersExclusiveIffClear(INIT, steps);
  }

  /**
   Exact counting after any clear run: the counters are the unfinished stripes of the
   readers and of the writers, never both positive; a writer that holds the lock holds it
   alone and its counter is its own; and both counters are zero exactly if nobody holds.
   */
  lemma ClearCounting(steps: seq<Step>)
    requires Exec(INIT, steps).Some? && AllClear(INIT, steps)
    ensures var s := Exec(INIT, steps).value;
            && s.lock.rcnt == Outstanding(s.grants, true)
            && s.lock.wcnt == Outstanding(s.grants, false)
            && !(s.lock.rcnt > 0 && s.lock.wcnt > 0)
            && (forall p | 0 <= p < |s.grants| && Holds(s.grants[p]) && !s.grants[p].job.read ::
                  && s.lock.wcnt == s.grants[p].phase.left && s.lock.rcnt == 0
                  && forall q | 0 <= q < |s.grants| && q != p :: !Holds(s.grants[q]))
            && (s.lock.rcnt == s.lock.wcnt == 0 <==> forall p | 0 <= p < |s.grants| :: !Holds(s.grants[p]))
  {
    ClearRun(INIT, steps);
    var s := Exec(INIT, steps).value;
    HeldByReader(s);
    HeldByWriter(s);
    forall p: nat | p < |s.grants| && Holds(s.grants[p]) && !s.grants[p].job.read
      ensures s.lock.wcnt == s.grants[p].phase.left && s.lock.rcnt == 0
      ensures forall q | 0 <= q < |s.grants| && q != p :: !Holds(s.grants[q])
    {
      HoldingWriter(s, p);
    }
  }

  lemma HoldingWriter(s: State, p: nat)
    requires Tallied(s) && p < |s.grants| && Holds(s.grants[p]) && !s.grants[p].job.read
    ensures s.lock.wcnt == s.grants[p].phase.left && s.lock.rcnt == 0
    ensures forall q | 0 <= q < |s.grants| && q != p :: !Holds(s.grants[q])
  {
    assert forall q | 0 <= q < |s.grants| && q != p :: !Holds(s.grants[q]);
    TotalSplit(WriteUnits, s.grants, p);
    TotalZero(WriteUnits, s.grants[..p]);
    TotalZero(WriteUnits, s.grants[p+1..]);
    TotalZero(ReadUnits, s.grants);
  }

  /** A run without an unsafe grant is clear. */
  lemma {:induction false} SafeIsClear(s: State, steps: seq<Step>)
    requires Strong(s) && Exec(s, steps).Some? && AllSafe(s, steps)
    ensures AllClear(s, steps)
    decreases |steps|
  {
    if steps == [] {
    } else {
      SafeStepIsClear(s, steps[0]);
      SafeKeepsStrong(s, steps[0]);
      SafeIsClear(Next(s, steps[0]), steps[1..]);
    }
  }

  lemma SafeStepIsClear(s: State, step: Step)
    requires Strong(s) && Enabled(s, step) && SafeStep(s, step)
    ensures ClearStep(s, step)
  {
    if step.Resume? {
      var p := step.p;
      assert Active(s.grants[p]);
      if HeldAgainst(s.lock, s.grants[p].job) {
        var q := HolderAgainst(s, s.grants[p].job);
        assert false;
      }
    }
  }

  // ---------------------------------------------------------------- a run where it fails

  const R1 := Job(true, 1)
  const W1 := Job(false, 1)

  lemma Prepend(s: State, step: Step, rest: seq<Step>)
    requires Enabled(s, step)
    ensures Exec(s, [step] + rest) == Exec(Next(s, step), rest)
    ensures Exec(s, [step] + rest).Some? ==>
              && (AllSafe(s, [step] + rest) <==> SafeStep(s, step) && AllSafe(Next(s, step), rest))
              && (AllClear(s, [step] + rest) <==> ClearStep(s, step) && AllClear(Next(s, step), rest))
              && (HandOff(s, [step] + rest) <==>
                    (AnySignalled(s.grants) ==> step.Resume?) && HandOff(Next(s, step), rest))
  {
    var steps := [step] + rest;
    assert steps[0] == step && steps[1..] == rest;
  }

  /** The state in which the reader is about to slip in. */
  const GAP := State(Lock(0, 0, []), [Grant(W1, Holding(0)), Grant(W1, Signalled)])

  function UpToGap(rest: seq<Step>): seq<Step> { [Arrive(W1)] + ([Arrive(W1)] + ([Complete(0)] + rest)) }

  lemma GapSteps(s1: State, s2: State)
    requires s1 == State(Lock(0, 1, []), [Grant(W1, Holding(1))])
    requires s2 == State(Lock(0, 1, [W1]), [Grant(W1, Holding(1))])
    ensures Next(INIT, Arrive(W1)) == s1 && Next(s1, Arrive(W1)) == s2 && Next(s2, Complete(0)) == GAP
  {
    assert Wake([W1]) == [Grant(W1, Signalled)];
    assert [Grant(W1, Holding(0))] + [Grant(W1, Signalled)] == GAP.grants;
  }

  lemma ToGap(rest: seq<Step>)
    requires Exec(GAP, rest).Some?
    ensures Exec(INIT, UpToGap(rest)) == Exec(GAP, rest)
    ensures AllSafe(INIT, UpToGap(rest)) <==> AllSafe(GAP, rest)
    ensures AllClear(INIT, UpToGap(rest)) <==> AllClear(GAP, rest)
    ensures HandOff(INIT, UpToGap(rest)) <==> HandOff(GAP, rest)
  {
    var s1 := State(Lock(0, 1, []), [Grant(W1, Holding(1))]);
    var s2 := State(Lock(0, 1, [W1]), [Grant(W1, Holding(1))]);
    var last := [Complete(0)] + rest;
    GapSteps(s1, s2);
    Prepend(s2, Complete(0), rest);
    Prepend(s1, Arrive(W1), last);
    Prepend(INIT, Arrive(W1), [Arrive(W1)] + last);
  }

  /** A writer finishes and signals the next one; a reader slips in before that one resumes. */
  const BARGING: seq<Step> := UpToGap([Arrive(R1)] + ([Resume(1)] + []))

  /** Without the hand-off a reader and a writer can hold the lock at the same time. */
  lemma ExclusionCanFail()
    ensures Exec(INIT, BARGING).Some?
    ensures Exec(INIT, BARGING).value.lock == Lock(1, 1, []) && !HoldersExclusive(Exec(INIT, BARGING).value)
    ensures !AllSafe(INIT, BARGING) && !AllClear(INIT, BARGING) && !HandOff(INIT, BARGING)
  {
    var s4 := State(Lock(1, 0, []), [Grant(W1, Holding(0)), Grant(W1, Signalled), Grant(R1, Holding(1))]);
    var s5 := State(Lock(1, 1, []), [Grant(W1, Holding(0)), Grant(W1, Holding(1)), Grant(R1, Holding(1))]);
    assert Next(GAP, Arrive(R1)) == s4 && Next(s4, Resume(1)) == s5;
    Prepend(s4, Resume(1), []);
    Prepend(GAP, Arrive(R1), [Resume(1)] + []);
    ToGap([Arrive(R1)] + ([Resume(1)] + []));
    assert IsSignalled(GAP.grants[1]);
    assert Holds(s5.grants[1]) && Holds(s5.grants[2]);
  }

  /** The reader that slipped in finishes before the writer resumes, and nobody is disturbed. */
  const LUCKY: seq<Step> := UpToGap([Arrive(R1)] + ([Complete(2)] + ([Resume(1)] + [])))

  /** Not every clear run is free of unsafe grants. */
  lemma ClearButUnsafe()
    ensures Exec(INIT, LUCKY).Some?
    ensures AllClear(INIT, LUCKY) && !AllSafe(INIT, LUCKY)
  {
    var s4 := State(Lock(1, 0, []), [Grant(W1, Holding(0)), Grant(W1, Signalled), Grant(R1, Holding(1))]);
    var s5 := State(Lock(0, 0, []), [Grant(W1, Holding(0)), Grant(W1, Signalled), Grant(R1, Holding(0))]);
    assert Next(GAP, Arrive(R1)) == s4;
    assert Next(s4, Complete(2)) == s5;
    Prepend(s5, Resume(1), []);
    Prepend(s4, Complete(2), [Resume(1)] + []);
    Prepend(GAP, Arrive(R1), [Complete(2)] + ([Resume(1)] + []));
    ToGap([Arrive(R1)] + ([Complete(2)] + ([Resume(1)] + [])));
    assert IsSignalled(GAP.grants[1]);
  }
}
