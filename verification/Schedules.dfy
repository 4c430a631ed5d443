/** The schedule of a run of the server: its steps on the lock. */
module Schedules {
  import opened Options
  import opened RwLock
  import opened Exclusion
  import opened Serial

  /** The steps that a run of the server takes on the lock. */
  function Locks(es: seq<Event>): seq<Step> {
    if es == [] then [] else StepsOf(es[0]) + Locks(es[1..])
  }

  function StepsOf(e: Event): seq<Step> { if LockStep(e).Some? then [LockStep(e).value] else [] }

  lemma LocksFirst(e: Event, rest: seq<Event>)
    ensures Locks([e] + rest) == StepsOf(e) + Locks(rest)
  {
    var es := [e] + rest;
    assert es[0] == e && es[1..] == rest;
  }

  lemma {:induction false} LocksConcat(es: seq<Event>, fs: seq<Event>)
    ensures Locks(es + fs) == Locks(es) + Locks(fs)
  {
    if es == [] {
      assert es + fs == fs;
    } else {
      var e, rest := es[0], es[1..];
      var more := rest + fs;
      assert es + fs == [e] + more;
      LocksFirst(e, more);
      assert Locks(more) == Locks(rest) + Locks(fs) by { LocksConcat(rest, fs); }
      Regroup(StepsOf(e), Locks(rest), Locks(fs));
    }
  }

  lemma {:induction false} PlayConcat(s: Server, es: seq<Event>, fs: seq<Event>)
    requires Play(s, es).Some?
    ensures Play(s, es + fs) == Play(Play(s, es).value, fs)
    decreases |es|
  {
    if es == [] {
      assert es + fs == fs;
    } else {
      var e, rest := es[0], es[1..];
      assert es + fs == [e] + (rest + fs);
      PlayOne(s, e, After(s, e), rest + fs);
      PlayConcat(After(s, e), rest, fs);
    }
  }

  /** One run after the other. */
  lemma JoinRuns(s: Server, es: seq<Event>, fs: seq<Event>)
    requires Play(s, es).Some?
    ensures Play(s, es + fs) == Play(Play(s, es).value, fs)
    ensures Locks(es + fs) == Locks(es) + Locks(fs)
  {
    PlayConcat(s, es, fs);
    LocksConcat(es, fs);
  }

  /** Every transaction that resumes finds no conflicting one holding the lock. */
  predicate ClearEvents(s: Server, es: seq<Event>)
    requires Play(s, es).Some?
    decreases |es|
  {
    es == [] || (ClearEvent(s, es[0]) && ClearEvents(After(s, es[0]), es[1..]))
  }

  predicate ClearEvent(s: Server, e: Event)
    requires Possible(s, e)
  {
    e.Wakeup? ==> !HeldAgainst(s.sync.lock, s.sync.grants[e.p].job)
  }

  /** A run of the server is a run of the lock, and safe or clear exactly when that is. */
  lemma {:induction false} LocksRun(s: Server, es: seq<Event>)
    requires Play(s, es).Some?
    ensures Exec(s.sync, Locks(es)) == Some(Play(s, es).value.sync)
    ensures SafeEvents(s, es) <==> AllSafe(s.sync, Locks(es))
    ensures ClearEvents(s, es) <==> AllClear(s.sync, Locks(es))
    decreases |es|
  {
    if es == [] {
    } else {
      if es[0].Begin? { SizeHasStripes(es[0].txn); }
      LocksRun(After(s, es[0]), es[1..]);
      assert LockStep(es[0]).None? ==> Locks(es) == Locks(es[1..]);
      assert LockStep(es[0]).Some? ==> Locks(es)[1..] == Locks(es[1..]);
    }
  }

  /** One schedule after the other. */
  lemma ExecConcat(s: State, xs: seq<Step>, ys: seq<Step>)
    requires Exec(s, xs).Some?
    ensures Exec(s, xs + ys) == Exec(Exec(s, xs).value, ys)
    ensures Exec(s, xs + ys).Some? ==>
              && (AllSafe(s, xs + ys) <==> AllSafe(s, xs) && AllSafe(Exec(s, xs).value, ys))
              && (AllClear(s, xs + ys) <==> AllClear(s, xs) && AllClear(Exec(s, xs).value, ys))
  {
    RunConcat(s, xs, ys);
    if Exec(s, xs + ys).Some? {
      AllSafeConcat(s, xs, ys);
      AllClearConcat(s, xs, ys);
    }
  }

  lemma {:induction false} RunConcat(s: State, xs: seq<Step>, ys: seq<Step>)
    requires Exec(s, xs).Some?
    ensures Exec(s, xs + ys) == Exec(Exec(s, xs).value, ys)
    decreases |xs|
  {
    if xs == [] {
      assert xs + ys == ys;
    } else {
      var x, rest := xs[0], xs[1..];
      assert xs + ys == [x] + (rest + ys);
      ExecFirst(s, x, rest + ys);
      RunConcat(Next(s, x), rest, ys);
    }
  }

  lemma {:induction false} AllSafeConcat(s: State, xs: seq<Step>, ys: seq<Step>)
    requires Exec(s, xs).Some? && Exec(Exec(s, xs).value, ys).Some?
    ensures Exec(s, xs + ys).Some?
    ensures AllSafe(s, xs + ys) <==> AllSafe(s, xs) && AllSafe(Exec(s, xs).value, ys)
    decreases |xs|
  {
    if xs == [] {
      assert xs + ys == ys;
    } else {
      AllSafeConcat(Next(s, xs[0]), xs[1..], ys);
      SafeFirst(s, xs, ys);
    }
  }

  lemma SafeFirst(s: State, xs: seq<Step>, ys: seq<Step>)
    requires xs != [] && Enabled(s, xs[0]) && Exec(Next(s, xs[0]), xs[1..] + ys).Some?
    ensures Exec(s, xs + ys) == Exec(Next(s, xs[0]), xs[1..] + ys)
    ensures AllSafe(s, xs + ys) <==> SafeStep(s, xs[0]) && AllSafe(Next(s, xs[0]), xs[1..] + ys)
  {
    assert (xs + ys)[0] == xs[0] && (xs + ys)[1..] == xs[1..] + ys;
  }

  lemma {:induction false} AllClearConcat(s: State, xs: seq<Step>, ys: seq<Step>)
    requires Exec(s, xs).Some? && Exec(Exec(s, xs).value, ys).Some?
    ensures Exec(s, xs + ys).Some?
    ensures AllClear(s, xs + ys) <==> AllClear(s, xs) && AllClear(Exec(s, xs).value, ys)
    decreases |xs|
  {
    if xs == [] {
      assert xs + ys == ys;
    } else {
      AllClearConcat(Next(s, xs[0]), xs[1..], ys);
      ClearFirst(s, xs, ys);
    }
  }

  lemma ClearFirst(s: State, xs: seq<Step>, ys: seq<Step>)
    requires xs != [] && Enabled(s, xs[0]) && Exec(Next(s, xs[0]), xs[1..] + ys).Some?
    ensures Exec(s, xs + ys) == Exec(Next(s, xs[0]), xs[1..] + ys)
    ensures AllClear(s, xs + ys) <==> ClearStep(s, xs[0]) && AllClear(Next(s, xs[0]), xs[1..] + ys)
  {
    assert (xs + ys)[0] == xs[0] && (xs + ys)[1..] == xs[1..] + ys;
  }

  // ---------------------------------------------------------------- what every run keeps

  lemma FitsStep(size: nat, s: Server, e: Event)
    requires Fits(size, s) && Possible(s, e)
    ensures Fits(size, After(s, e))
  {
    var r := After(s, e);
    match e
    case Begin(t) =>
      SizeHasStripes(t);
      InvStep(s.sync, Arrive(JobOf(t)));
      BeginGrows(s, t);
      GrownCounted(s.file, r, s.sync.grants, s.progress, s.arrived);
    case Wakeup(p) =>
      WakeupFits(size, s, p);
    case Move(p, o) =>
      MoveCounted(s, p, o);
    case Finish(p, k) =>
      FinishFits(size, s, p, k);
  }

  lemma FinishFits(size: nat, s: Server, p: nat, k: nat)
    requires Fits(size, s) && Possible(s, Finish(p, k))
    ensures Fits(size, After(s, Finish(p, k)))
  {
    InvStep(s.sync, Complete(p));
    FinishGrows(s, p, k);
    FinishCounted(s.arrived, s.sync.grants, s.progress, p, k);
    GrownCounted(s.file, After(s, Finish(p, k)), GiveBack(s.sync.grants, p), WithStripe(s.progress, p, k), s.arrived);
  }

  lemma {:induction false} FitsRun(size: nat, s: Server, es: seq<Event>)
    requires Fits(size, s) && Play(s, es).Some?
    ensures Fits(size, Play(s, es).value)
    decreases |es|
  {
    if es == [] {
    } else {
      FitsStep(size, s, es[0]);
      FitsRun(size, After(s, es[0]), es[1..]);
    }
  }
}
