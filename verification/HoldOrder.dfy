/**
 Serializability in the order in which the lock is taken.  On a run on which every sleeper
 that resumes finds the counters clear, the jobs might as well have arrived at the moment
 at which they took the lock: nobody would have had to wait.  That run is a hand-off run,
 and what is known of those carries over.
 */
module HoldOrder {
  import opened RwLock
  import opened Exclusion
  import opened Bytes
  import opened Serial
  import opened Schedules

  /** Some transactions, in a different order. */
  function Reordered(ts: seq<Txn>, order: seq<nat>): (r: seq<Txn>)
    requires forall i | 0 <= i < |order| :: order[i] < |ts|
    ensures |r| == |order| && forall i | 0 <= i < |order| :: r[i] == ts[order[i]]
  {
    seq(|order|, i requires 0 <= i < |order| => ts[order[i]])
  }

  predicate IsOrder(order: seq<nat>, n: nat) {
    && (forall i | 0 <= i < |order| :: order[i] < n)
    && (forall i, j | 0 <= i < j < |order| :: order[i] != order[j])
  }

  /**
   The finished transactions are explained by executing transactions one by one in `order`:
   each finished READ or GET returned its range of the file as it is after exactly those in
   front of it, and if all have finished the file is the one at the end.
   */
  ghost predicate SerialInOrder(f0: seq<byte>, s: Server, order: seq<nat>) {
    && IsOrder(order, |s.arrived|)
    && (forall p: nat | p < |s.sync.grants| && s.sync.grants[p].phase == Holding(0) :: p in order)
    && (forall i: nat | i < |order| && Finished(s, order[i]) ::
          ReadsAfter(f0, s, order[i], Reordered(s.arrived, order[..i])))
    && (s.sync.lock.queue == [] && !SomeActive(s.sync.grants) ==>
          && (forall p: nat | p < |s.arrived| :: p in order)
          && s.file == ApplyAll(f0, Reordered(s.arrived, order)))
  }

  predicate Finished(s: Server, p: nat) { p < |s.sync.grants| && s.sync.grants[p].phase == Holding(0) }

  /** Some order explains them. */
  ghost predicate SerialSomehow(f0: seq<byte>, s: Server) {
    exists order :: SerialInOrder(f0, s, order)
  }

  /** The grants that take the lock, in the order in which they do. */
  function Takers(s: Server, es: seq<Event>): seq<nat>
    requires Play(s, es).Some?
    decreases |es|
  {
    if es == [] then [] else Taker(s, es[0]) + Takers(After(s, es[0]), es[1..])
  }

  function Taker(s: Server, e: Event): seq<nat> {
    match e
    case Begin(t) => if MustWait(s.sync.lock, JobOf(t)) then [] else [|s.sync.grants|]
    case Wakeup(p) => [p]
    case Move(p, o) => []
    case Finish(p, k) => []
  }

  /** An outcome that is serial in the order of arrival is serial in some order. */
  lemma ArrivalIsAnOrder(f0: seq<byte>, s: Server)
    requires SerialOutcome(f0, s) && |s.sync.grants| <= |s.arrived|
    ensures SerialSomehow(f0, s)
  {
    var order := seq(|s.arrived|, i requires 0 <= i < |s.arrived| => i);
    forall p: nat | p < |s.arrived| ensures p in order {
      assert order[p] == p;
    }
    forall i: nat | i < |order| && Finished(s, order[i])
      ensures ReadsAfter(f0, s, order[i], Reordered(s.arrived, order[..i]))
    {
      assert ReadsSerially(f0, s, i);
      assert Reordered(s.arrived, order[..i]) == s.arrived[..i];
    }
    assert Reordered(s.arrived, order) == s.arrived;
    assert SerialInOrder(f0, s, order);
  }

  // ---------------------------------------------------------------- the run in which nobody waits

  /** Grant `i` of `m` is grant `p` of `s`. */
  predicate Same(s: Server, p: nat, m: Server, i: nat) {
    && Granted(s, p) && Granted(m, i)
    && s.sync.grants[p].phase.Holding?
    && m.arrived[i] == s.arrived[p] && m.sync.grants[i] == s.sync.grants[p] && m.progress[i] == s.progress[p]
  }

  /** In `m` exactly those have arrived that took the lock in `s`, in the order in which they did. */
  ghost predicate Mirrors(size: nat, s: Server, m: Server, order: seq<nat>) {
    && Fits(size, s)
    && m.file == s.file
    && m.sync.lock == Lock(s.sync.lock.rcnt, s.sync.lock.wcnt, [])
    && |m.arrived| == |m.progress| == |m.sync.grants| == |order|
    && IsOrder(order, |s.sync.grants|)
    && (forall i | 0 <= i < |order| :: Same(s, order[i], m, i))
    && (forall p: nat | p < |s.sync.grants| && s.sync.grants[p].phase.Holding? :: p in order)
  }

  /** The mirrored event, if there is one. */
  function Mirror(s: Server, order: seq<nat>, e: Event): seq<Event>
    requires Possible(s, e) && (e.Move? || e.Finish? ==> e.p in order)
  {
    match e
    case Begin(t) => if MustWait(s.sync.lock, JobOf(t)) then [] else [Begin(t)]
    case Wakeup(p) => [Begin(s.arrived[p])]
    case Move(p, o) => [Move(Place(order, p), o)]
    case Finish(p, k) => [Finish(Place(order, p), k)]
  }

  function Place(order: seq<nat>, p: nat): (i: nat)
    requires p in order
    ensures i < |order| && order[i] == p
  {
    if order[0] == p then 0 else 1 + Place(order[1..], p)
  }

  /** A job that takes the lock in `s` arrives in `m`. */
  lemma MirrorTake(size: nat, s: Server, r: Server, m: Server, order: seq<nat>, p: nat)
    requires Mirrors(size, s, m, order) && Fits(size, r)
    requires r.file == s.file && |s.arrived| <= |r.arrived| && r.arrived[..|s.arrived|] == s.arrived
    requires p < |r.sync.grants| && p !in order && |s.sync.grants| <= |r.sync.grants|
    requires var j := JobOf(r.arrived[p]);
             && !HeldAgainst(s.sync.lock, j)
             && r.sync.grants[p] == Grant(j, Holding(j.cnt)) && r.progress[p] == FRESH
             && Take(s.sync.lock, j).rcnt == r.sync.lock.rcnt && Take(s.sync.lock, j).wcnt == r.sync.lock.wcnt
    requires forall q | 0 <= q < |r.sync.grants| && q != p ::
               q < |s.sync.grants| && r.sync.grants[q] == s.sync.grants[q] && r.progress[q] == s.progress[q]
    ensures Possible(m, Begin(r.arrived[p]))
    ensures Mirrors(size, r, After(m, Begin(r.arrived[p])), order + [p])
  {
    var t := r.arrived[p];
    SizeHasStripes(t);
    var n := After(m, Begin(t));
    assert n.progress == m.progress + [FRESH];
    forall i | 0 <= i < |order + [p]| ensures Same(r, (order + [p])[i], n, i) {
      if i < |order| {
        assert Same(s, order[i], m, i);
      }
    }
    forall q: nat | q < |r.sync.grants| && r.sync.grants[q].phase.Holding? ensures q in order + [p] {
      if q != p { assert q in order; }
    }
  }

  lemma MirrorBegin(size: nat, s: Server, m: Server, order: seq<nat>, t: Txn)
    requires Mirrors(size, s, m, order) && Possible(s, Begin(t))
    ensures var r := After(s, Begin(t));
            if MustWait(s.sync.lock, JobOf(t)) then Mirrors(size, r, m, order)
            else Possible(m, Begin(t)) && Mirrors(size, r, After(m, Begin(t)), order + [|s.sync.grants|])
  {
    var r := After(s, Begin(t));
    SizeHasStripes(t);
    FitsStep(size, s, Begin(t));
    if MustWait(s.sync.lock, JobOf(t)) {
      assert r.progress == s.progress;
      forall i | 0 <= i < |order| ensures Same(r, order[i], m, i) {
        assert Same(s, order[i], m, i);
      }
    } else {
      assert |Order(s.sync)| == |s.arrived|;
      assert r.arrived[|s.sync.grants|] == t;
      MirrorTake(size, s, r, m, order, |s.sync.grants|);
    }
  }

  lemma MirrorWakeup(size: nat, s: Server, m: Server, order: seq<nat>, p: nat)
    requires Mirrors(size, s, m, order) && Possible(s, Wakeup(p)) && ClearEvent(s, Wakeup(p))
    ensures Possible(m, Begin(s.arrived[p]))
    ensures Mirrors(size, After(s, Wakeup(p)), After(m, Begin(s.arrived[p])), order + [p])
  {
    FitsStep(size, s, Wakeup(p));
    JobAt(s.sync, s.arrived, p);
    assert Counted(s.arrived[p], s.sync.grants[p], s.progress[p]);
    assert p !in order;
    MirrorTake(size, s, After(s, Wakeup(p)), m, order, p);
  }

  lemma MirrorMove(size: nat, s: Server, m: Server, order: seq<nat>, p: nat, o: nat)
    requires Mirrors(size, s, m, order) && Possible(s, Move(p, o))
    ensures p in order && Possible(m, Move(Place(order, p), o))
    ensures Mirrors(size, After(s, Move(p, o)), After(m, Move(Place(order, p), o)), order)
  {
    assert p in order;
    var x := Place(order, p);
    assert Same(s, p, m, x);
    FitsStep(size, s, Move(p, o));
    MoveSame(s, m, order, p, o, x);
  }

  lemma MoveSame(s: Server, m: Server, order: seq<nat>, p: nat, o: nat, x: nat)
    requires Possible(s, Move(p, o)) && Possible(m, Move(x, o)) && |order| == |m.sync.grants| && s.file == m.file
    requires IsOrder(order, |s.sync.grants|) && x < |order| && order[x] == p
    requires forall i | 0 <= i < |order| :: Same(s, order[i], m, i)
    ensures After(s, Move(p, o)).file == After(m, Move(x, o)).file
    ensures forall i | 0 <= i < |order| :: Same(After(s, Move(p, o)), order[i], After(m, Move(x, o)), i)
  {
    assert Same(s, order[x], m, x);
    forall i | 0 <= i < |order| ensures Same(After(s, Move(p, o)), order[i], After(m, Move(x, o)), i) {
      assert Same(s, order[i], m, i);
      assert i != x ==> order[i] != p;
    }
  }

  /** What a finished stripe changes. */
  lemma Finishing(s: Server, p: nat, k: nat)
    requires Possible(s, Finish(p, k))
    ensures var r := After(s, Finish(p, k));
            && r.file == s.file && r.arrived == s.arrived
            && r.sync.lock == Release(s.sync.lock, s.sync.grants[p].job.read)
            && |r.progress| == |r.sync.grants| == |s.sync.grants| + Popped(s.sync.lock, s.sync.grants[p].job.read)
            && (forall q | 0 <= q < |s.sync.grants| ::
                  && r.sync.grants[q] == GiveBack(s.sync.grants, p)[q]
                  && r.progress[q] == WithStripe(s.progress, p, k)[q])
            && (forall q | |s.sync.grants| <= q < |r.sync.grants| :: r.sync.grants[q].phase == Signalled)
  {
    BatchSignalled(s.sync, p);
  }

  lemma MirrorFinish(size: nat, s: Server, m: Server, order: seq<nat>, p: nat, k: nat)
    requires Mirrors(size, s, m, order) && Possible(s, Finish(p, k))
    ensures p in order && Possible(m, Finish(Place(order, p), k))
    ensures Mirrors(size, After(s, Finish(p, k)), After(m, Finish(Place(order, p), k)), order)
  {
    assert p in order;
    var x := Place(order, p);
    assert Same(s, p, m, x);
    FitsStep(size, s, Finish(p, k));
    FinishCounters(s, m, p, k, x);
    FinishSame(s, m, order, p, k, x);
    FinishHolders(s, order, p, k);
  }

  lemma FinishCounters(s: Server, m: Server, p: nat, k: nat, x: nat)
    requires Possible(s, Finish(p, k)) && Possible(m, Finish(x, k)) && Same(s, p, m, x)
    requires m.sync.lock == Lock(s.sync.lock.rcnt, s.sync.lock.wcnt, []) && |m.progress| == |m.sync.grants|
    ensures var r, n := After(s, Finish(p, k)), After(m, Finish(x, k));
            && n.sync.lock == Lock(r.sync.lock.rcnt, r.sync.lock.wcnt, [])
            && |n.progress| == |n.sync.grants| == |m.sync.grants|
            && |r.sync.grants| >= |s.sync.grants|
            && r.file == s.file && n.file == m.file && n.arrived == m.arrived
  {
    Finishing(s, p, k);
    Finishing(m, x, k);
  }

  lemma FinishHolders(s: Server, order: seq<nat>, p: nat, k: nat)
    requires Possible(s, Finish(p, k)) && p in order
    requires forall q: nat | q < |s.sync.grants| && s.sync.grants[q].phase.Holding? :: q in order
    ensures var r := After(s, Finish(p, k));
            forall q: nat | q < |r.sync.grants| && r.sync.grants[q].phase.Holding? :: q in order
  {
    Finishing(s, p, k);
  }

  lemma FinishSame(s: Server, m: Server, order: seq<nat>, p: nat, k: nat, x: nat)
    requires Possible(s, Finish(p, k)) && Possible(m, Finish(x, k)) && |order| == |m.sync.grants| <= |m.arrived|
    requires |s.arrived| >= |After(s, Finish(p, k)).sync.grants|
    requires IsOrder(order, |s.sync.grants|) && x < |order| && order[x] == p
    requires forall i | 0 <= i < |order| :: Same(s, order[i], m, i)
    requires |After(m, Finish(x, k)).sync.grants| == |m.sync.grants|
    ensures forall i | 0 <= i < |order| :: Same(After(s, Finish(p, k)), order[i], After(m, Finish(x, k)), i)
  {
    Finishing(s, p, k);
    Finishing(m, x, k);
    forall i | 0 <= i < |order| ensures Same(After(s, Finish(p, k)), order[i], After(m, Finish(x, k)), i) {
      assert Same(s, order[i], m, i) && Same(s, order[x], m, x);
      assert i != x ==> order[i] != p;
    }
  }

  // ---------------------------------------------------------------- runs

  /** In `m` nobody sleeps, so whatever happens next hands off. */
  lemma NobodySleeps(size: nat, s: Server, m: Server, order: seq<nat>)
    requires Mirrors(size, s, m, order)
    ensures !AnySignalled(m.sync.grants)
  {
    forall i | 0 <= i < |m.sync.grants| ensures !IsSignalled(m.sync.grants[i]) {
      assert Same(s, order[i], m, i);
    }
  }

  lemma MirrorStep(size: nat, s: Server, m: Server, order: seq<nat>, e: Event)
    requires Mirrors(size, s, m, order) && Possible(s, e) && ClearEvent(s, e)
    ensures e.Move? || e.Finish? ==> e.p in order
    ensures var f := Mirror(s, order, e);
            if f == [] then Mirrors(size, After(s, e), m, order + Taker(s, e))
            else |f| == 1 && Possible(m, f[0]) && Mirrors(size, After(s, e), After(m, f[0]), order + Taker(s, e))
  {
    assert order + [] == order;
    match e
    case Begin(t) => MirrorBegin(size, s, m, order, t);
    case Wakeup(p) => MirrorWakeup(size, s, m, order, p);
    case Move(p, o) => MirrorMove(size, s, m, order, p, o);
    case Finish(p, k) => MirrorFinish(size, s, m, order, p, k);
  }

  lemma {:induction false} MirrorRun(size: nat, s: Server, m: Server, order: seq<nat>, es: seq<Event>)
    returns (fs: seq<Event>)
    requires Mirrors(size, s, m, order) && Play(s, es).Some? && ClearEvents(s, es)
    ensures Play(m, fs).Some? && HandOffEvents(m, fs)
    ensures Mirrors(size, Play(s, es).value, Play(m, fs).value, order + Takers(s, es))
    decreases |es|
  {
    if es == [] {
      fs := [];
      assert order + [] == order;
    } else {
      var e, r := es[0], After(s, es[0]);
      MirrorStep(size, s, m, order, e);
      var f := Mirror(s, order, e);
      Regroup(order, Taker(s, e), Takers(r, es[1..]));
      if f == [] {
        fs := MirrorRun(size, r, m, order + Taker(s, e), es[1..]);
      } else {
        var n := After(m, f[0]);
        var rest := MirrorRun(size, r, n, order + Taker(s, e), es[1..]);
        fs := f + rest;
        NobodySleeps(size, s, m, order);
        HandOffFirst(m, f[0], rest);
        assert f == [f[0]];
      }
    }
  }

  lemma HandOffFirst(m: Server, e: Event, rest: seq<Event>)
    requires Possible(m, e) && !AnySignalled(m.sync.grants)
    requires Play(After(m, e), rest).Some? && HandOffEvents(After(m, e), rest)
    ensures Play(m, [e] + rest) == Play(After(m, e), rest) && HandOffEvents(m, [e] + rest)
  {
    PlayOne(m, e, After(m, e), rest);
    var all := [e] + rest;
    assert all[0] == e && all[1..] == rest;
  }

  lemma MirrorArrived(s: Server, m: Server, order: seq<nat>, n: nat)
    requires n <= |order| == |m.arrived| && IsOrder(order, |s.arrived|)
    requires forall i | 0 <= i < |order| :: Same(s, order[i], m, i)
    ensures m.arrived[..n] == Reordered(s.arrived, order[..n])
  {
    forall k | 0 <= k < n ensures m.arrived[k] == s.arrived[order[k]] {
      assert Same(s, order[k], m, k);
    }
  }

  lemma MirrorReads(f0: seq<byte>, s: Server, m: Server, p: nat, i: nat, ts: seq<Txn>)
    requires Same(s, p, m, i) && ReadsAfter(f0, m, i, ts)
    ensures ReadsAfter(f0, s, p, ts)
  {
    assert Returned(m, i) == Returned(s, p);
  }

  lemma MirrorOrder(size: nat, s: Server, m: Server, order: seq<nat>)
    requires Mirrors(size, s, m, order)
    ensures IsOrder(order, |s.arrived|) && |order| == |m.arrived|
    ensures forall i | 0 <= i < |order| :: Same(s, order[i], m, i)
    ensures forall p | 0 <= p < |s.sync.grants| && s.sync.grants[p].phase.Holding? :: p in order
  {
  }

  /** What `m` shows is what `s` shows, in the order of `m`. */
  lemma MirrorSerial(f0: seq<byte>, s: Server, m: Server, order: seq<nat>)
    requires Mirrors(|f0|, s, m, order) && SerialOutcome(f0, m)
    ensures SerialInOrder(f0, s, order)
  {
    MirrorOrder(|f0|, s, m, order);
    forall i: nat | i < |order| && Finished(s, order[i])
      ensures ReadsAfter(f0, s, order[i], Reordered(s.arrived, order[..i]))
    {
      assert Same(s, order[i], m, i);
      MirrorArrived(s, m, order, i);
      assert ReadsSerially(f0, m, i);
      MirrorReads(f0, s, m, order[i], i, m.arrived[..i]);
    }
    if s.sync.lock.queue == [] && !SomeActive(s.sync.grants) {
      MirrorDone(|f0|, s, m, order);
      MirrorArrived(s, m, order, |order|);
      assert m.arrived[..|order|] == m.arrived && order[..|order|] == order;
    }
  }

  lemma MirrorDone(size: nat, s: Server, m: Server, order: seq<nat>)
    requires Mirrors(size, s, m, order)
    requires s.sync.lock.queue == [] && !SomeActive(s.sync.grants)
    ensures forall p: nat | p < |s.arrived| :: p in order
    ensures m.sync.lock.queue == [] && !SomeActive(m.sync.grants)
  {
    MirrorOrder(size, s, m, order);
    assert |Order(s.sync)| == |s.arrived|;
    forall p: nat | p < |s.arrived| ensures p in order {
      assert !Active(s.sync.grants[p]);
    }
    forall i | 0 <= i < |m.sync.grants| ensures !Active(m.sync.grants[i]) {
      assert Same(s, order[i], m, i) && !Active(s.sync.grants[order[i]]);
    }
  }

  /**
   Serializability in the order in which the lock was taken, on every run on which each
   sleeper that resumes finds the counters clear, whatever order the bytes move and the
   stripes complete in.
   */
  lemma ClearIsSerial(f0: seq<byte>, es: seq<Event>)
    requires Play(Start(f0), es).Some? && ClearEvents(Start(f0), es)
    ensures SerialInOrder(f0, Play(Start(f0), es).value, Takers(Start(f0), es))
  {
    StartIsGood(f0);
    var fs := MirrorRun(|f0|, Start(f0), Start(f0), [], es);
    Serializable(f0, fs);
    assert [] + Takers(Start(f0), es) == Takers(Start(f0), es);
    MirrorSerial(f0, Play(Start(f0), es).value, Play(Start(f0), fs).value, Takers(Start(f0), es));
  }
}
