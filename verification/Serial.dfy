/**
 Serializability of the transfers on one file.  The lock's transition system is joined
 with the bytes: between the moment a transaction holds the lock and the moment its last
 stripe completes, its bytes move one by one in any order, interleaved with the bytes of
 everybody else; a stripe may complete once all its bytes have moved.
 */
module Serial {
  import opened Options
  import opened RwLock
  import opened Exclusion
  import opened Bytes
  import opened Stripes

  /** READ and GET read a range of the file; WRITE and PUT overwrite one. */
  datatype Txn = Read(off: nat, len: nat) | Write(off: nat, data: seq<byte>)

  function Size(t: Txn): nat { if t.Read? then t.len else |t.data| }

  function StripesOf(t: Txn): seq<Tile> { Tiles(0, Size(t), FILE_STRIPE) }

  /** The lock request that goes with a transaction: one unit for each stripe. */
  function JobOf(t: Txn): Job { Job(t.Read?, |StripesOf(t)|) }

  /** It is the count that the server computes for the length of the transaction. */
  lemma JobIsLockCount(t: Txn)
    requires 0 < Size(t) <= 0x8000_0000 - FILE_STRIPE
    ensures LockCount(Size(t)) == Some(JobOf(t).cnt)
  {
    LockCountExactly(Size(t));
  }

  predicate Inside(t: Txn, filesize: nat) { 0 < Size(t) && t.off + Size(t) <= filesize }

  /** The bytes of a transaction that have moved, and the stripes that have completed. */
  datatype Progress = Progress(moved: map<nat, byte>, stripes: set<nat>)

  const FRESH := Progress(map[], {})

  /** Grant `p` of the lock belongs to transaction `arrived[p]` and has progress `progress[p]`. */
  datatype Server = Server(file: seq<byte>, sync: State, arrived: seq<Txn>, progress: seq<Progress>)

  function Start(file: seq<byte>): Server { Server(file, INIT, [], []) }

  datatype Event = Begin(txn: Txn) | Wakeup(p: nat) | Move(p: nat, o: nat) | Finish(p: nat, k: nat)

  predicate Granted(s: Server, p: nat) {
    p < |s.sync.grants| && |s.progress| == |s.sync.grants| <= |s.arrived|
  }

  predicate StripeMoved(t: Txn, moved: map<nat, byte>, k: nat)
    requires k < |StripesOf(t)|
  {
    forall o: nat | o < Size(t) && In(o, StripesOf(t)[k]) :: o in moved
  }

  predicate Possible(s: Server, e: Event) {
    match e
    case Begin(t) => Inside(t, |s.file|) && |s.progress| == |s.sync.grants|
    case Wakeup(p) => Enabled(s.sync, Resume(p)) && Granted(s, p)
    case Move(p, o) =>
      && Granted(s, p) && s.sync.grants[p].phase.Holding?
      && o < Size(s.arrived[p]) && o !in s.progress[p].moved && Inside(s.arrived[p], |s.file|)
    case Finish(p, k) =>
      && Granted(s, p) && Enabled(s.sync, Complete(p))
      && k < |StripesOf(s.arrived[p])| && k !in s.progress[p].stripes
      && StripeMoved(s.arrived[p], s.progress[p].moved, k)
  }

  /** Newly granted transactions have moved nothing. */
  function Grow(progress: seq<Progress>, n: nat): (r: seq<Progress>)
    requires |progress| <= n
    ensures |r| == n
    ensures forall p | 0 <= p < n :: r[p] == if p < |progress| then progress[p] else FRESH
  {
    progress + seq(n - |progress|, _ => FRESH)
  }

  function WithStripe(progress: seq<Progress>, p: nat, k: nat): (r: seq<Progress>)
    requires p < |progress|
    ensures |r| == |progress|
  {
    progress[p := progress[p].(stripes := progress[p].stripes + {k})]
  }

  lemma SizeHasStripes(t: Txn)
    requires Size(t) > 0
    ensures JobOf(t).cnt > 0
  {
  }

  function After(s: Server, e: Event): Server
    requires Possible(s, e)
  {
    match e
    case Begin(t) =>
      SizeHasStripes(t);
      var l := Next(s.sync, Arrive(JobOf(t)));
      Server(s.file, l, s.arrived + [t], Grow(s.progress, |l.grants|))
    case Wakeup(p) => s.(sync := Next(s.sync, Resume(p)))
    case Move(p, o) =>
      var t := s.arrived[p];
      var b := if t.Read? then s.file[t.off + o] else t.data[o];
      s.(file := if t.Read? then s.file else s.file[t.off + o := b],
         progress := s.progress[p := s.progress[p].(moved := s.progress[p].moved[o := b])])
    case Finish(p, k) =>
      var l := Next(s.sync, Complete(p));
      s.(sync := l,
         progress := Grow(WithStripe(s.progress, p, k), |l.grants|))
  }

  function Play(s: Server, es: seq<Event>): Option<Server>
    decreases |es|
  {
    if es == [] then Some(s)
    else if Possible(s, es[0]) then Play(After(s, es[0]), es[1..])
    else None
  }

  /** Playing one event, then the rest. */
  lemma PlayOne(s: Server, e: Event, t: Server, es: seq<Event>)
    requires Possible(s, e) && After(s, e) == t
    ensures Play(s, [e] + es) == Play(t, es)
  {
    var all := [e] + es;
    assert all[0] == e && all[1..] == es;
  }

  /** The step that an event takes on the lock, if any. */
  function LockStep(e: Event): Option<Step> {
    match e
    case Begin(t) => Some(Arrive(JobOf(t)))
    case Wakeup(p) => Some(Resume(p))
    case Move(p, o) => None
    case Finish(p, k) => Some(Complete(p))
  }

  /** No event grants the lock over a conflicting transaction that was signalled and still sleeps. */
  predicate SafeEvents(s: Server, es: seq<Event>)
    requires Play(s, es).Some?
    decreases |es|
  {
    es == [] ||
    (&& (LockStep(es[0]).Some? ==> Enabled(s.sync, LockStep(es[0]).value) && SafeStep(s.sync, LockStep(es[0]).value))
     && SafeEvents(After(s, es[0]), es[1..]))
  }

  /** Every signalled transaction resumes before anything else happens to the lock. */
  predicate HandOffEvents(s: Server, es: seq<Event>)
    requires Play(s, es).Some?
    decreases |es|
  {
    es == [] ||
    ((AnySignalled(s.sync.grants) ==> es[0].Wakeup? || es[0].Move?) && HandOffEvents(After(s, es[0]), es[1..]))
  }

  // ---------------------------------------------------------------- the serial execution

  /** What one transaction alone does to the file. */
  function Apply(file: seq<byte>, t: Txn): (r: seq<byte>)
    ensures t.Read? ==> r == file
    ensures Inside(t, |file|) ==> |r| == |file|
  {
    if t.Read? then file else PWrite(file, t.off, t.data)
  }

  /** The transactions one after the other. */
  function ApplyAll(file: seq<byte>, ts: seq<Txn>): (r: seq<byte>)
    ensures (forall t | t in ts :: Inside(t, |file|)) ==> |r| == |file|
  {
    if ts == [] then file else Apply(ApplyAll(file, ts[..|ts|-1]), ts[|ts|-1])
  }

  /** The file while a write is under way. */
  function Overlay(file: seq<byte>, t: Txn, moved: map<nat, byte>): (r: seq<byte>)
    requires t.Write? && Inside(t, |file|)
    ensures |r| == |file|
    ensures forall x | 0 <= x < |file| ::
              r[x] == if t.off <= x < t.off + |t.data| && x - t.off in moved then t.data[x - t.off] else file[x]
  {
    seq(|file|, x requires 0 <= x < |file| =>
          if t.off <= x < t.off + |t.data| && x - t.off in moved then t.data[x - t.off] else file[x])
  }

  /** What transaction `p` must see: the file after exactly those granted before it. */
  function Before(f0: seq<byte>, arrived: seq<Txn>, p: nat): seq<byte>
    requires p <= |arrived|
  {
    ApplyAll(f0, arrived[..p])
  }

  lemma BeforeStep(f0: seq<byte>, arrived: seq<Txn>, p: nat)
    requires p < |arrived|
    ensures Before(f0, arrived, p + 1) == Apply(Before(f0, arrived, p), arrived[p])
  {
    assert arrived[..p + 1][..p] == arrived[..p];
  }

  lemma BeforeLength(f0: seq<byte>, arrived: seq<Txn>, p: nat)
    requires p <= |arrived| && forall i | 0 <= i < |arrived| :: Inside(arrived[i], |f0|)
    ensures |Before(f0, arrived, p)| == |f0|
  {
    assert forall t | t in arrived[..p] :: Inside(t, |f0|);
  }

  /** Readers leave the file as they find it. */
  lemma {:induction false} BeforeReaders(f0: seq<byte>, arrived: seq<Txn>, p: nat, n: nat)
    requires p <= n <= |arrived| && forall q | p <= q < n :: arrived[q].Read?
    ensures Before(f0, arrived, n) == Before(f0, arrived, p)
    decreases n
  {
    if p == n {
    } else {
      BeforeStep(f0, arrived, n - 1);
      BeforeReaders(f0, arrived, p, n - 1);
    }
  }

  // ---------------------------------------------------------------- the invariant

  function JobsOf(ts: seq<Txn>): (js: seq<Job>)
    ensures |js| == |ts| && forall i | 0 <= i < |ts| :: js[i] == JobOf(ts[i])
  {
    seq(|ts|, i requires 0 <= i < |ts| => JobOf(ts[i]))
  }

  /** The stripes of `t` that have completed account for the units given back, and had moved. */
  ghost predicate Counted(t: Txn, g: Grant, pr: Progress) {
    && (forall k | k in pr.stripes :: k < |StripesOf(t)| && StripeMoved(t, pr.moved, k))
    && (forall o | o in pr.moved :: o < Size(t))
    && match g.phase
       case Signalled => pr == FRESH
       case Holding(left) => left + |pr.stripes| == |StripesOf(t)|
  }

  /** The bytes a transaction has moved are the ones it should. */
  ghost predicate Right(t: Txn, pr: Progress, before: seq<byte>)
    requires Inside(t, |before|)
  {
    forall o | o in pr.moved && o < Size(t) ::
      pr.moved[o] == if t.Read? then before[t.off + o] else t.data[o]
  }

  /** What every run keeps on a file of `size` bytes, safe or not. */
  ghost predicate Fits(size: nat, s: Server) {
    && Inv(s.sync)
    && |s.file| == size
    && |s.progress| == |s.sync.grants| <= |s.arrived|
    && Order(s.sync) == JobsOf(s.arrived)
    && AllInside(s.arrived, size)
    && AllCounted(s.arrived, s.sync.grants, s.progress)
  }

  ghost predicate Shape(f0: seq<byte>, s: Server) {
    Strong(s.sync) && Fits(|f0|, s)
  }

  predicate AllInside(ts: seq<Txn>, size: nat) { forall i | 0 <= i < |ts| :: Inside(ts[i], size) }

  ghost predicate AllCounted(arrived: seq<Txn>, gs: seq<Grant>, progress: seq<Progress>)
    requires |progress| == |gs| <= |arrived|
  {
    forall p | 0 <= p < |gs| :: Counted(arrived[p], gs[p], progress[p])
  }

  ghost predicate Results(f0: seq<byte>, arrived: seq<Txn>, progress: seq<Progress>)
    requires |progress| <= |arrived| && AllInside(arrived, |f0|)
  {
    forall p: nat | p < |progress| ::
      |Before(f0, arrived, p)| == |f0| && Right(arrived[p], progress[p], Before(f0, arrived, p))
  }

  /** The file is the serial one, up to the bytes that the last granted writer has yet to move. */
  ghost predicate FileIs(f0: seq<byte>, file: seq<byte>, arrived: seq<Txn>, progress: seq<Progress>)
    requires |progress| <= |arrived| && AllInside(arrived, |f0|)
  {
    var n := |progress|;
    if n > 0 && arrived[n-1].Write? then
      |Before(f0, arrived, n - 1)| == |f0| &&
      file == Overlay(Before(f0, arrived, n - 1), arrived[n-1], progress[n-1].moved)
    else
      file == Before(f0, arrived, n)
  }

  ghost predicate Good(f0: seq<byte>, s: Server) {
    Shape(f0, s) && Results(f0, s.arrived, s.progress) && FileIs(f0, s.file, s.arrived, s.progress)
  }

  lemma {:induction false} FullSet(ks: set<nat>, n: nat)
    requires |ks| == n && forall k | k in ks :: k < n
    ensures forall k: nat | k < n :: k in ks
  {
    if n == 0 {
    } else {
      if n - 1 in ks {
        FullSet(ks - {n - 1}, n - 1);
      } else {
        SmallSet(ks, n - 1);
      }
    }
  }

  lemma {:induction false} SmallSet(ks: set<nat>, n: nat)
    requires forall k | k in ks :: k < n
    ensures |ks| <= n
  {
    if n == 0 {
      if k :| k in ks { assert false; }
    } else {
      SmallSet(ks - {n - 1}, n - 1);
    }
  }

  /** When the last unit has been given back, every byte has moved. */
  lemma DoneHasMoved(t: Txn, g: Grant, pr: Progress)
    requires Counted(t, g, pr) && g.phase == Holding(0)
    ensures forall o: nat | o < Size(t) :: o in pr.moved
  {
    FullSet(pr.stripes, |StripesOf(t)|);
    TilesPartition(0, Size(t), FILE_STRIPE);
    forall o: nat | o < Size(t) ensures o in pr.moved {
      assert Covered(o, StripesOf(t));
      var k :| 0 <= k < |StripesOf(t)| && In(o, StripesOf(t)[k]);
      assert StripeMoved(t, pr.moved, k);
    }
  }

  lemma OverlayAll(file: seq<byte>, t: Txn, moved: map<nat, byte>)
    requires t.Write? && Inside(t, |file|) && forall o: nat | o < Size(t) :: o in moved
    ensures Overlay(file, t, moved) == Apply(file, t)
  {
  }

  lemma OverlayNone(file: seq<byte>, t: Txn)
    requires t.Write? && Inside(t, |file|)
    ensures Overlay(file, t, map[]) == file
  {
  }

  /** Once the last granted transaction is no unfinished writer, the file is the serial one. */
  lemma QuietFile(f0: seq<byte>, file: seq<byte>, arrived: seq<Txn>, progress: seq<Progress>, gs: seq<Grant>)
    requires |progress| == |gs| <= |arrived| && AllInside(arrived, |f0|)
    requires FileIs(f0, file, arrived, progress) && AllCounted(arrived, gs, progress)
    requires gs != [] ==> arrived[|gs|-1].Read? || gs[|gs|-1].phase == Holding(0)
    ensures file == Before(f0, arrived, |gs|)
  {
    var n := |gs|;
    if n > 0 && arrived[n-1].Write? {
      assert Counted(arrived[n-1], gs[n-1], progress[n-1]);
      WrittenOut(Before(f0, arrived, n - 1), arrived[n-1], gs[n-1], progress[n-1]);
      BeforeStep(f0, arrived, n - 1);
    }
  }

  /** A finished writer has written everything. */
  lemma WrittenOut(file: seq<byte>, t: Txn, g: Grant, pr: Progress)
    requires t.Write? && Inside(t, |file|) && Counted(t, g, pr) && g.phase == Holding(0)
    ensures Overlay(file, t, pr.moved) == Apply(file, t)
  {
    DoneHasMoved(t, g, pr);
    OverlayAll(file, t, pr.moved);
  }

  /** `s` comes from grants `gs` with `progress` by granting waiters and newcomers. */
  ghost predicate Grown(s: Server, gs: seq<Grant>, progress: seq<Progress>, arrived: seq<Txn>) {
    && |progress| == |gs| <= |arrived| <= |s.arrived|
    && s.arrived[..|arrived|] == arrived
    && |gs| <= |s.sync.grants| <= |s.arrived|
    && s.sync.grants[..|gs|] == gs
    && s.progress == Grow(progress, |s.sync.grants|)
    && Order(s.sync) == JobsOf(s.arrived)
    && (forall p | |gs| <= p < |s.sync.grants| :: IsFresh(s.sync.grants[p]))
  }

  predicate IsFresh(g: Grant) { g.phase == Signalled || g.phase == Holding(g.job.cnt) }

  /** Granting waiters and newcomers keeps the invariant if the lock keeps its own. */
  lemma GrowKeeps(f0: seq<byte>, s: Server, gs: seq<Grant>, progress: seq<Progress>, arrived: seq<Txn>)
    requires Grown(s, gs, progress, arrived) && Strong(s.sync)
    requires |s.file| == |f0| && AllInside(s.arrived, |f0|) && AllInside(arrived, |f0|)
    requires AllCounted(arrived, gs, progress)
    requires Results(f0, arrived, progress) && FileIs(f0, s.file, arrived, progress)
    ensures Good(f0, s)
  {
    GrownCounted(f0, s, gs, progress, arrived);
    GrownResults(f0, s, progress, arrived);
    GrownFileIs(f0, s, gs, progress, arrived);
  }

  lemma GrownFileIs(f0: seq<byte>, s: Server, gs: seq<Grant>, progress: seq<Progress>, arrived: seq<Txn>)
    requires Grown(s, gs, progress, arrived) && Strong(s.sync)
    requires AllInside(s.arrived, |f0|) && AllInside(arrived, |f0|)
    requires AllCounted(arrived, gs, progress) && FileIs(f0, s.file, arrived, progress)
    ensures FileIs(f0, s.file, s.arrived, s.progress)
  {
    var n := |gs|;
    if n < |s.sync.grants| {
      LastIsQuiet(f0, s, gs);
      if n > 0 {
        assert s.arrived[n-1] == arrived[n-1];
      }
      QuietFile(f0, s.file, arrived, progress, gs);
      assert s.arrived[..n] == arrived[..n];
      FreshFile(f0, s, n);
    } else {
      assert s.progress == progress;
      SameFile(f0, s, progress, arrived);
    }
  }

  lemma SameFile(f0: seq<byte>, s: Server, progress: seq<Progress>, arrived: seq<Txn>)
    requires |progress| <= |arrived| <= |s.arrived| && s.arrived[..|arrived|] == arrived
    requires AllInside(s.arrived, |f0|) && AllInside(arrived, |f0|) && FileIs(f0, s.file, arrived, progress)
    ensures FileIs(f0, s.file, s.arrived, progress)
  {
    var n := |progress|;
    assert s.arrived[..n] == arrived[..n];
    if n > 0 {
      assert s.arrived[..n-1] == arrived[..n-1] && s.arrived[n-1] == arrived[n-1];
    }
  }

  lemma JobAt(l: State, arrived: seq<Txn>, p: nat)
    requires Order(l) == JobsOf(arrived) && p < |l.grants|
    ensures |l.grants| <= |arrived| && l.grants[p].job == JobOf(arrived[p])
  {
    assert Order(l)[p] == JobsOf(arrived)[p];
  }

  lemma GrownCounted(f0: seq<byte>, s: Server, gs: seq<Grant>, progress: seq<Progress>, arrived: seq<Txn>)
    requires Grown(s, gs, progress, arrived) && AllCounted(arrived, gs, progress)
    ensures AllCounted(s.arrived, s.sync.grants, s.progress)
  {
    forall p | 0 <= p < |s.sync.grants| ensures Counted(s.arrived[p], s.sync.grants[p], s.progress[p]) {
      JobAt(s.sync, s.arrived, p);
      if p < |gs| {
        assert s.arrived[p] == arrived[p] && s.sync.grants[p] == gs[p];
        assert Counted(arrived[p], gs[p], progress[p]);
      }
    }
  }

  lemma GrownResults(f0: seq<byte>, s: Server, progress: seq<Progress>, arrived: seq<Txn>)
    requires |progress| <= |arrived| <= |s.arrived| && s.arrived[..|arrived|] == arrived
    requires |progress| <= |s.sync.grants| <= |s.arrived| && s.progress == Grow(progress, |s.sync.grants|)
    requires AllInside(s.arrived, |f0|) && AllInside(arrived, |f0|) && Results(f0, arrived, progress)
    ensures Results(f0, s.arrived, s.progress)
  {
    forall p: nat | p < |s.progress|
      ensures |Before(f0, s.arrived, p)| == |f0| && Right(s.arrived[p], s.progress[p], Before(f0, s.arrived, p))
    {
      BeforeLength(f0, s.arrived, p);
      if p < |progress| {
        assert s.arrived[..p] == arrived[..p] && s.arrived[p] == arrived[p];
      }
    }
  }

  /** Nobody is granted beside an unfinished writer. */
  lemma LastIsQuiet(f0: seq<byte>, s: Server, gs: seq<Grant>)
    requires Strong(s.sync) && |gs| < |s.sync.grants| && s.sync.grants[..|gs|] == gs
    requires Order(s.sync) == JobsOf(s.arrived)
    ensures |gs| < |s.arrived|
    ensures gs != [] ==> s.arrived[|gs|-1].Read? || gs[|gs|-1].phase == Holding(0)
  {
    var n := |gs|;
    JobAt(s.sync, s.arrived, n);
    if n > 0 {
      JobAt(s.sync, s.arrived, n - 1);
      assert s.sync.grants[n-1] == gs[n-1];
      if Active(gs[n-1]) { assert !Conflict(gs[n-1].job, s.sync.grants[n].job); }
    }
  }

  /** Fresh grants find the serial file; a fresh writer is the only fresh grant. */
  lemma FreshFile(f0: seq<byte>, s: Server, n: nat)
    requires Strong(s.sync) && n < |s.sync.grants| == |s.progress| <= |s.arrived|
    requires Order(s.sync) == JobsOf(s.arrived) && AllInside(s.arrived, |f0|)
    requires forall p | n <= p < |s.progress| :: s.progress[p] == FRESH && IsFresh(s.sync.grants[p])
    requires s.file == Before(f0, s.arrived, n)
    ensures FileIs(f0, s.file, s.arrived, s.progress)
  {
    var m := |s.progress|;
    JobAt(s.sync, s.arrived, m - 1);
    BeforeLength(f0, s.arrived, n);
    if s.arrived[m-1].Write? {
      assert n < m - 1 ==> !Conflict(s.sync.grants[n].job, s.sync.grants[m-1].job);
      OverlayNone(s.file, s.arrived[m-1]);
    } else {
      forall q | n <= q < m ensures s.arrived[q].Read? {
        JobAt(s.sync, s.arrived, q);
        if q < m - 1 { assert !Conflict(s.sync.grants[q].job, s.sync.grants[m-1].job); }
      }
      BeforeReaders(f0, s.arrived, n, m);
    }
  }

  // ---------------------------------------------------------------- the events

  predicate Safe(s: Server, e: Event)
    requires Possible(s, e)
  {
    LockStep(e).Some? ==> Enabled(s.sync, LockStep(e).value) && SafeStep(s.sync, LockStep(e).value)
  }

  lemma BeginKeeps(f0: seq<byte>, s: Server, t: Txn)
    requires Good(f0, s) && Possible(s, Begin(t)) && Safe(s, Begin(t))
    ensures Good(f0, After(s, Begin(t)))
  {
    SizeHasStripes(t);
    SafeKeepsStrong(s.sync, Arrive(JobOf(t)));
    BeginGrows(s, t);
    GrowKeeps(f0, After(s, Begin(t)), s.sync.grants, s.progress, s.arrived);
  }

  lemma BeginGrows(s: Server, t: Txn)
    requires Possible(s, Begin(t)) && Order(s.sync) == JobsOf(s.arrived) && |s.sync.grants| <= |s.arrived|
    ensures Grown(After(s, Begin(t)), s.sync.grants, s.progress, s.arrived)
  {
    var r := After(s, Begin(t));
    SizeHasStripes(t);
    OrderStep(s.sync, Arrive(JobOf(t)));
    assert JobsOf(s.arrived + [t]) == JobsOf(s.arrived) + [JobOf(t)];
    assert |Order(r.sync)| == |r.arrived|;
  }

  lemma WakeupKeeps(f0: seq<byte>, s: Server, p: nat)
    requires Good(f0, s) && Possible(s, Wakeup(p))
    ensures Good(f0, After(s, Wakeup(p)))
  {
    var r := After(s, Wakeup(p));
    SafeKeepsStrong(s.sync, Resume(p));
    WakeupFits(|f0|, s, p);
    assert r.file == s.file && r.arrived == s.arrived && r.progress == s.progress;
  }

  lemma WakeupFits(size: nat, s: Server, p: nat)
    requires Fits(size, s) && Possible(s, Wakeup(p))
    ensures Fits(size, After(s, Wakeup(p)))
  {
    var r := After(s, Wakeup(p));
    InvStep(s.sync, Resume(p));
    OrderStep(s.sync, Resume(p));
    assert Order(s.sync) + [] == Order(s.sync);
    JobAt(s.sync, s.arrived, p);
    forall q | 0 <= q < |r.sync.grants| ensures Counted(r.arrived[q], r.sync.grants[q], r.progress[q]) {
      assert Counted(s.arrived[q], s.sync.grants[q], s.progress[q]);
    }
  }

  lemma FinishKeeps(f0: seq<byte>, s: Server, p: nat, k: nat)
    requires Good(f0, s) && Possible(s, Finish(p, k)) && Safe(s, Finish(p, k))
    ensures Good(f0, After(s, Finish(p, k)))
  {
    SafeKeepsStrong(s.sync, Complete(p));
    FinishReady(f0, s.file, s.arrived, s.sync.grants, s.progress, p, k);
    FinishGrows(s, p, k);
    GrowKeeps(f0, After(s, Finish(p, k)), GiveBack(s.sync.grants, p), WithStripe(s.progress, p, k), s.arrived);
  }

  lemma FinishReady(f0: seq<byte>, file: seq<byte>, arrived: seq<Txn>, gs: seq<Grant>, progress: seq<Progress>,
                    p: nat, k: nat)
    requires |progress| == |gs| <= |arrived| && AllInside(arrived, |f0|)
    requires AllCounted(arrived, gs, progress) && Results(f0, arrived, progress) && FileIs(f0, file, arrived, progress)
    requires p < |gs| && gs[p].phase.Holding? && gs[p].phase.left > 0
    requires k < |StripesOf(arrived[p])| && k !in progress[p].stripes && StripeMoved(arrived[p], progress[p].moved, k)
    ensures AllCounted(arrived, GiveBack(gs, p), WithStripe(progress, p, k))
    ensures Results(f0, arrived, WithStripe(progress, p, k))
    ensures FileIs(f0, file, arrived, WithStripe(progress, p, k))
  {
    FinishCounted(arrived, gs, progress, p, k);
    FinishResults(f0, arrived, progress, p, k);
    var after := WithStripe(progress, p, k);
    assert forall q | 0 <= q < |progress| :: after[q].moved == progress[q].moved;
    SameMoved(f0, file, arrived, progress, after);
  }

  lemma FinishGrows(s: Server, p: nat, k: nat)
    requires Possible(s, Finish(p, k)) && Order(s.sync) == JobsOf(s.arrived)
    ensures Grown(After(s, Finish(p, k)), GiveBack(s.sync.grants, p), WithStripe(s.progress, p, k), s.arrived)
  {
    var r := After(s, Finish(p, k));
    OrderStep(s.sync, Complete(p));
    assert Order(s.sync) + [] == Order(s.sync);
    assert |Order(r.sync)| == |r.arrived|;
    var batch := Popped(s.sync.lock, s.sync.grants[p].job.read);
    assert r.sync.grants == GiveBack(s.sync.grants, p) + Wake(s.sync.lock.queue[..batch]);
    assert s.arrived[..|s.arrived|] == s.arrived;
  }

  lemma FinishCounted(arrived: seq<Txn>, gs: seq<Grant>, progress: seq<Progress>, p: nat, k: nat)
    requires |progress| == |gs| <= |arrived| && AllCounted(arrived, gs, progress)
    requires p < |gs| && gs[p].phase.Holding? && gs[p].phase.left > 0
    requires k < |StripesOf(arrived[p])| && k !in progress[p].stripes && StripeMoved(arrived[p], progress[p].moved, k)
    ensures AllCounted(arrived, GiveBack(gs, p), WithStripe(progress, p, k))
  {
    forall q | 0 <= q < |gs|
      ensures Counted(arrived[q], GiveBack(gs, p)[q], WithStripe(progress, p, k)[q])
    {
      assert Counted(arrived[q], gs[q], progress[q]);
    }
  }

  lemma FinishResults(f0: seq<byte>, arrived: seq<Txn>, progress: seq<Progress>, p: nat, k: nat)
    requires |progress| <= |arrived| && AllInside(arrived, |f0|) && p < |progress|
    requires Results(f0, arrived, progress)
    ensures Results(f0, arrived, WithStripe(progress, p, k))
  {
    var after := WithStripe(progress, p, k);
    forall q: nat | q < |after|
      ensures |Before(f0, arrived, q)| == |f0| && Right(arrived[q], after[q], Before(f0, arrived, q))
    {
      assert Right(arrived[q], progress[q], Before(f0, arrived, q));
    }
  }

  // one byte moves

  function Moving(s: Server, p: nat, o: nat): byte
    requires Possible(s, Move(p, o))
  {
    var t := s.arrived[p];
    if t.Read? then s.file[t.off + o] else t.data[o]
  }

  /** A transaction that still moves bytes is unfinished. */
  lemma MoverIsActive(f0: seq<byte>, s: Server, p: nat, o: nat)
    requires Good(f0, s) && Possible(s, Move(p, o))
    ensures Active(s.sync.grants[p])
  {
    assert Counted(s.arrived[p], s.sync.grants[p], s.progress[p]);
    if s.sync.grants[p].phase == Holding(0) {
      DoneHasMoved(s.arrived[p], s.sync.grants[p], s.progress[p]);
    }
  }

  /** An unfinished reader sees the file as it was when it was granted. */
  lemma ReaderSees(f0: seq<byte>, s: Server, p: nat)
    requires Good(f0, s) && p < |s.sync.grants| && Active(s.sync.grants[p]) && s.arrived[p].Read?
    ensures s.file == Before(f0, s.arrived, p)
  {
    var n := |s.sync.grants|;
    forall q | p <= q < n ensures s.arrived[q].Read? {
      JobAt(s.sync, s.arrived, q);
      if p < q { assert !Conflict(s.sync.grants[p].job, s.sync.grants[q].job); }
    }
    BeforeReaders(f0, s.arrived, p, n);
  }

  /** An unfinished writer is the last one granted. */
  lemma WriterIsLast(f0: seq<byte>, s: Server, p: nat)
    requires Good(f0, s) && p < |s.sync.grants| && Active(s.sync.grants[p]) && s.arrived[p].Write?
    ensures p == |s.sync.grants| - 1
  {
    JobAt(s.sync, s.arrived, p);
    assert p < |s.sync.grants| - 1 ==> !Conflict(s.sync.grants[p].job, s.sync.grants[p+1].job);
  }

  lemma MoveKeeps(f0: seq<byte>, s: Server, p: nat, o: nat)
    requires Good(f0, s) && Possible(s, Move(p, o))
    ensures Good(f0, After(s, Move(p, o)))
  {
    MoverIsActive(f0, s, p, o);
    MoveCounted(s, p, o);
    if s.arrived[p].Read? {
      ReaderSees(f0, s, p);
      SameMoved(f0, s.file, s.arrived, s.progress, After(s, Move(p, o)).progress);
    } else {
      WriterIsLast(f0, s, p);
      MoveWrite(f0, s, p, o);
    }
    MoveResults(f0, s, p, o);
  }

  /** Progress that moves none of the last grant's bytes leaves the file as it should be. */
  lemma SameMoved(f0: seq<byte>, file: seq<byte>, arrived: seq<Txn>, progress: seq<Progress>, after: seq<Progress>)
    requires |after| == |progress| <= |arrived| && AllInside(arrived, |f0|)
    requires FileIs(f0, file, arrived, progress)
    requires var n := |progress| - 1;
             n >= 0 && arrived[n].Write? ==> after[n].moved == progress[n].moved
    ensures FileIs(f0, file, arrived, after)
  {
  }

  lemma MoveWrite(f0: seq<byte>, s: Server, p: nat, o: nat)
    requires Good(f0, s) && Possible(s, Move(p, o)) && s.arrived[p].Write? && p == |s.sync.grants| - 1
    ensures |After(s, Move(p, o)).file| == |f0|
    ensures FileIs(f0, After(s, Move(p, o)).file, s.arrived, After(s, Move(p, o)).progress)
  {
    var r := After(s, Move(p, o));
    assert r.file == Overlay(Before(f0, s.arrived, p), s.arrived[p], r.progress[p].moved);
  }

  lemma MoveRight(t: Txn, pr: Progress, before: seq<byte>, o: nat, b: byte)
    requires Inside(t, |before|) && Right(t, pr, before) && o < Size(t)
    requires b == if t.Read? then before[t.off + o] else t.data[o]
    ensures Right(t, pr.(moved := pr.moved[o := b]), before)
  {
  }

  lemma MoveResults(f0: seq<byte>, s: Server, p: nat, o: nat)
    requires Possible(s, Move(p, o)) && AllInside(s.arrived, |f0|)
    requires Results(f0, s.arrived, s.progress)
    requires s.arrived[p].Read? ==> s.file == Before(f0, s.arrived, p)
    ensures Results(f0, s.arrived, After(s, Move(p, o)).progress)
  {
    var r := After(s, Move(p, o));
    forall q: nat | q < |r.progress|
      ensures |Before(f0, s.arrived, q)| == |f0| && Right(s.arrived[q], r.progress[q], Before(f0, s.arrived, q))
    {
      assert Right(s.arrived[q], s.progress[q], Before(f0, s.arrived, q));
      if q == p {
        MoveRight(s.arrived[p], s.progress[p], Before(f0, s.arrived, p), o, r.progress[p].moved[o]);
      } else {
        assert r.progress[q] == s.progress[q];
      }
    }
  }

  lemma MoveCounted(s: Server, p: nat, o: nat)
    requires Possible(s, Move(p, o)) && AllCounted(s.arrived, s.sync.grants, s.progress)
    ensures AllCounted(s.arrived, s.sync.grants, After(s, Move(p, o)).progress)
  {
    var progress := After(s, Move(p, o)).progress;
    forall q | 0 <= q < |s.sync.grants| ensures Counted(s.arrived[q], s.sync.grants[q], progress[q]) {
      assert Counted(s.arrived[q], s.sync.grants[q], s.progress[q]);
      if q == p {
        forall k | k in progress[q].stripes ensures StripeMoved(s.arrived[q], progress[q].moved, k) {
          assert StripeMoved(s.arrived[q], s.progress[q].moved, k);
        }
      }
    }
  }

  // ---------------------------------------------------------------- runs

  lemma EventKeeps(f0: seq<byte>, s: Server, e: Event)
    requires Good(f0, s) && Possible(s, e) && Safe(s, e)
    ensures Good(f0, After(s, e))
  {
    match e
    case Begin(t) => BeginKeeps(f0, s, t);
    case Wakeup(p) => WakeupKeeps(f0, s, p);
    case Move(p, o) => MoveKeeps(f0, s, p, o);
    case Finish(p, k) => FinishKeeps(f0, s, p, k);
  }

  lemma {:induction false} SafePlay(f0: seq<byte>, s: Server, es: seq<Event>)
    requires Good(f0, s) && Play(s, es).Some? && SafeEvents(s, es)
    ensures Good(f0, Play(s, es).value)
    decreases |es|
  {
    if es == [] {
    } else {
      EventKeeps(f0, s, es[0]);
      SafePlay(f0, After(s, es[0]), es[1..]);
    }
  }

  lemma {:induction false} HandOffPlay(s: Server, es: seq<Event>)
    requires Play(s, es).Some? && HandOffEvents(s, es)
    ensures SafeEvents(s, es)
    decreases |es|
  {
    if es == [] {
    } else {
      if es[0].Begin? { SizeHasStripes(es[0].txn); }
      HandOffPlay(After(s, es[0]), es[1..]);
    }
  }

  lemma EventArrived(s: Server, e: Event)
    requires Possible(s, e)
    ensures After(s, e).arrived == s.arrived + if e.Begin? then [e.txn] else []
  {
    assert s.arrived + [] == s.arrived;
  }

  function Begun(es: seq<Event>): seq<Txn> {
    if es == [] then []
    else (if es[0].Begin? then [es[0].txn] else []) + Begun(es[1..])
  }

  lemma {:induction false} BeginsInOrder(s: Server, es: seq<Event>)
    requires Play(s, es).Some?
    ensures Play(s, es).value.arrived == s.arrived + Begun(es)
    decreases |es|
  {
    if es == [] {
      assert s.arrived + [] == s.arrived;
    } else {
      var u := After(s, es[0]);
      var first := if es[0].Begin? then [es[0].txn] else [];
      assert u.arrived == s.arrived + first by { EventArrived(s, es[0]); }
      BeginsInOrder(u, es[1..]);
      Regroup(s.arrived, first, Begun(es[1..]));
    }
  }

  /** The bytes that transaction `p` has moved, once it has moved them all. */
  function Returned(s: Server, p: nat): seq<byte>
    requires Granted(s, p) && AllMoved(s, p)
  {
    seq(Size(s.arrived[p]), o requires 0 <= o < Size(s.arrived[p]) => s.progress[p].moved[o])
  }

  predicate AllMoved(s: Server, p: nat)
    requires Granted(s, p)
  {
    forall o: nat | o < Size(s.arrived[p]) :: o in s.progress[p].moved
  }

  /** Grant `p` has moved all its bytes, and what it read is its range of the file after `ts`. */
  ghost predicate ReadsAfter(f0: seq<byte>, s: Server, p: nat, ts: seq<Txn>) {
    && Granted(s, p) && AllMoved(s, p)
    && var t := s.arrived[p];
       var before := ApplyAll(f0, ts);
       && Inside(t, |before|)
       && (t.Read? ==> Returned(s, p) == before[t.off..t.off + t.len])
  }

  /** That is the file after exactly the transactions that arrived before it. */
  ghost predicate ReadsSerially(f0: seq<byte>, s: Server, p: nat) {
    p <= |s.arrived| && ReadsAfter(f0, s, p, s.arrived[..p])
  }

  lemma FinishedReads(f0: seq<byte>, s: Server, p: nat)
    requires Good(f0, s) && p < |s.sync.grants| && s.sync.grants[p].phase == Holding(0)
    ensures ReadsSerially(f0, s, p)
  {
    assert Counted(s.arrived[p], s.sync.grants[p], s.progress[p]);
    DoneHasMoved(s.arrived[p], s.sync.grants[p], s.progress[p]);
    ReturnedIs(s, p, Before(f0, s.arrived, p));
  }

  lemma ReturnedIs(s: Server, p: nat, before: seq<byte>)
    requires Granted(s, p) && AllMoved(s, p)
    requires Inside(s.arrived[p], |before|) && Right(s.arrived[p], s.progress[p], before)
    ensures s.arrived[p].Read? ==>
              Returned(s, p) == before[s.arrived[p].off..s.arrived[p].off + s.arrived[p].len]
  {
  }

  lemma AllDone(f0: seq<byte>, s: Server)
    requires Good(f0, s) && s.sync.lock.queue == [] && !SomeActive(s.sync.grants)
    ensures s.file == ApplyAll(f0, s.arrived)
  {
    AllGranted(s.sync, s.arrived);
    DoneFile(f0, s.file, s.arrived, s.progress, s.sync.grants);
  }

  lemma DoneFile(f0: seq<byte>, file: seq<byte>, arrived: seq<Txn>, progress: seq<Progress>, gs: seq<Grant>)
    requires |progress| == |gs| == |arrived| && AllInside(arrived, |f0|)
    requires FileIs(f0, file, arrived, progress) && AllCounted(arrived, gs, progress)
    requires !SomeActive(gs)
    ensures file == ApplyAll(f0, arrived)
  {
    if gs != [] {
      assert !Active(gs[|gs|-1]);
    }
    QuietFile(f0, file, arrived, progress, gs);
    assert arrived[..|gs|] == arrived;
  }

  lemma AllGranted(l: State, arrived: seq<Txn>)
    requires Order(l) == JobsOf(arrived) && l.lock.queue == []
    ensures |l.grants| == |arrived|
  {
    assert |Order(l)| == |arrived|;
  }

  lemma StartIsGood(f0: seq<byte>)
    ensures Good(f0, Start(f0))
  {
    InitIsStrong();
    assert Jobs([]) == [];
    assert Order(INIT) == JobsOf([]);
    assert Before(f0, [], 0) == f0;
  }

  /**
   Each finished READ or GET returned its range of the file as it is after exactly the
   WRITEs and PUTs that arrived before it, and if all transactions have finished the file is
   the one that executing them one by one, in the order of their arrival, would give.
   */
  ghost predicate SerialOutcome(f0: seq<byte>, s: Server) {
    && (forall p: nat | p < |s.sync.grants| && s.sync.grants[p].phase == Holding(0) ::
          ReadsSerially(f0, s, p))
    && (s.sync.lock.queue == [] && !SomeActive(s.sync.grants) ==> s.file == ApplyAll(f0, s.arrived))
  }

  /**
   Serializability, on every run that is safe (so on every hand-off run): whatever order
   the bytes move and the stripes complete in, reads and file are those of the serial
   execution in the order of arrival.
   */
  lemma Serializable(f0: seq<byte>, es: seq<Event>)
    requires Play(Start(f0), es).Some?
    requires SafeEvents(Start(f0), es) || HandOffEvents(Start(f0), es)
    ensures var s := Play(Start(f0), es).value;
            s.arrived == Begun(es) && SerialOutcome(f0, s)
  {
    if HandOffEvents(Start(f0), es) {
      HandOffPlay(Start(f0), es);
    }
    StartIsGood(f0);
    SafePlay(f0, Start(f0), es);
    BeginsInOrder(Start(f0), es);
    GoodIsSerial(f0, Play(Start(f0), es).value);
  }

  lemma GoodIsSerial(f0: seq<byte>, s: Server)
    requires Good(f0, s)
    ensures SerialOutcome(f0, s)
  {
    forall p: nat | p < |s.sync.grants| && s.sync.grants[p].phase == Holding(0)
      ensures ReadsSerially(f0, s, p)
    {
      FinishedReads(f0, s, p);
    }
    if s.sync.lock.queue == [] && !SomeActive(s.sync.grants) {
      AllDone(f0, s);
    }
  }
}
