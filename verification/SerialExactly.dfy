/**
 The converses of serializability.  A schedule, that is a run of the lock, has no unsafe
 grant if and only if all transfers that follow it are serial in the order of arrival; and
 all its resumptions are clear if and only if all transfers that follow it are serial in
 some order; whatever files, ranges and contents the jobs stand for, in whatever order their
 bytes move, and however the run goes on without another such step.

 For a step that is not so, the proof builds transfers that go wrong.  Two conflicting jobs
 that hold the lock together meet on two bytes of the file, where nobody else goes: one
 moves its first, the other both, and the first its second.  No serial execution leaves or
 shows two bytes of which only one has been written.
 */
module SerialExactly {
  import opened Options
  import opened RwLock
  import opened Exclusion
  import opened Bytes
  import opened Stripes
  import opened Serial
  import opened Schedules
  import opened HoldOrder

  // ---------------------------------------------------------------- transfers for a schedule

  /** What the `i`-th transfer writes where `a` and `b` meet. */
  function Mark(i: nat, a: nat, b: nat): byte { if i == a then 1 else if i == b then 2 else 0 }

  /**
   The last stripe of every transfer is two bytes long.  Those of `a` and `b` lie at `spot`,
   and all others lie behind it.
   */
  predicate Placed(t: Txn, i: nat, a: nat, b: nat, spot: nat) {
    && Size(t) == (|StripesOf(t)| - 1) * FILE_STRIPE + 2
    && (if i == a || i == b then t.off + Size(t) == spot + 2 else t.off == spot + 2)
    && (t.Write? ==> t.data[Size(t) - 2] == t.data[Size(t) - 1] == Mark(i, a, b))
  }

  predicate AllPlaced(ts: seq<Txn>, a: nat, b: nat, spot: nat) {
    forall i | 0 <= i < |ts| :: Placed(ts[i], i, a, b, spot)
  }

  function FileSize(spot: nat): nat { 2 * spot + 4 }

  /** A transfer for job `j`, the `i`-th to arrive. */
  function Pick(j: Job, i: nat, a: nat, b: nat, spot: nat): (t: Txn)
    requires 0 < j.cnt && j.cnt * FILE_STRIPE <= spot
    ensures Size(t) == (j.cnt - 1) * FILE_STRIPE + 2 && Inside(t, FileSize(spot))
    ensures t.Read? == j.read
  {
    var size := (j.cnt - 1) * FILE_STRIPE + 2;
    var off := if i == a || i == b then spot + 2 - size else spot + 2;
    if j.read then Read(off, size) else Write(off, seq(size, _ => Mark(i, a, b)))
  }

  lemma PickIsFor(j: Job, i: nat, a: nat, b: nat, spot: nat)
    requires 0 < j.cnt && j.cnt * FILE_STRIPE <= spot
    ensures JobOf(Pick(j, i, a, b, spot)) == j && Placed(Pick(j, i, a, b, spot), i, a, b, spot)
  {
    var n := (j.cnt - 1) * FILE_STRIPE + 2;
    TilesShape(0, n, FILE_STRIPE);
    StripeCount(n);
  }

  /** The transfers of all arrivals in `steps` fit in front of `spot`. */
  predicate Roomy(steps: seq<Step>, spot: nat) {
    forall st | st in steps && st.Arrive? :: st.job.cnt * FILE_STRIPE <= spot
  }

  lemma {:induction false} RoomFor(steps: seq<Step>) returns (spot: nat)
    ensures Roomy(steps, spot)
  {
    if steps == [] {
      spot := 0;
    } else {
      spot := RoomFor(steps[1..]);
      if steps[0].Arrive? {
        spot := spot + steps[0].job.cnt * FILE_STRIPE;
      }
    }
  }

  /** The bytes of `p` from `o` up to `end` move. */
  lemma {:induction false} MoveRange(s: Server, p: nat, o: nat, end: nat) returns (es: seq<Event>)
    requires Granted(s, p) && s.sync.grants[p].phase.Holding? && Inside(s.arrived[p], |s.file|)
    requires o <= end <= Size(s.arrived[p])
    ensures Play(s, es).Some? && Locks(es) == []
    ensures forall e | e in es :: e.Move? && e.p == p && o <= e.o < end
    ensures var t := Play(s, es).value;
            && t.sync == s.sync && t.arrived == s.arrived && Granted(t, p)
            && (forall i: nat | o <= i < end || i in s.progress[p].moved :: i in t.progress[p].moved)
            && t.progress[p].stripes == s.progress[p].stripes
    decreases end - o
  {
    if o == end {
      es := [];
    } else if o in s.progress[p].moved {
      es := MoveRange(s, p, o + 1, end);
    } else {
      var rest := MoveRange(After(s, Move(p, o)), p, o + 1, end);
      es := [Move(p, o)] + rest;
      assert es[1..] == rest;
    }
  }

  lemma {:induction false} Missing(ks: set<nat>, n: nat) returns (k: nat)
    requires |ks| < n
    ensures k < n && k !in ks
  {
    if n - 1 in ks {
      k := Missing(ks - {n - 1}, n - 1);
    } else {
      k := n - 1;
    }
  }

  /** A stripe that has not completed, and not the last one as long as there is another. */
  lemma StripeLeft(t: Txn, g: Grant, pr: Progress) returns (k: nat)
    requires Counted(t, g, pr) && Holds(g)
    ensures k < |StripesOf(t)| && k !in pr.stripes
    ensures g.phase.left > 1 ==> k < |StripesOf(t)| - 1
  {
    var n := |StripesOf(t)|;
    k := Missing(pr.stripes, if g.phase.left > 1 then n - 1 else n);
  }

  /** A stripe of `p` completes once its bytes have moved; the last two bytes wait for the last stripe. */
  lemma FinishOne(size: nat, s: Server, p: nat) returns (es: seq<Event>)
    requires Fits(size, s) && Enabled(s.sync, Complete(p))
    requires Size(s.arrived[p]) == (|StripesOf(s.arrived[p])| - 1) * FILE_STRIPE + 2
    ensures Play(s, es).Some? && Play(s, es).value.arrived == s.arrived
    ensures Locks(es) == [Complete(p)]
    ensures forall e | e in es && e.Move? :: MayMove(s, p, e)
  {
    var t := s.arrived[p];
    assert Counted(t, s.sync.grants[p], s.progress[p]);
    var k := StripeLeft(t, s.sync.grants[p], s.progress[p]);
    StripeAt(0, Size(t), k);
    var tile := StripesOf(t)[k];
    var moves := MoveRange(s, p, tile.off, tile.off + tile.len);
    var u := Play(s, moves).value;
    assert StripeMoved(u.arrived[p], u.progress[p].moved, k);
    var last := [Finish(p, k)];
    assert Play(u, last) == Play(After(u, Finish(p, k)), []);
    es := moves + last;
    JoinRuns(s, moves, last);
    assert Locks(last) == [Complete(p)] + Locks([]);
  }

  /** A move of `p`, and not of its last two bytes while a stripe has to come. */
  predicate MayMove(s: Server, p: nat, e: Event)
    requires e.Move? && Granted(s, p) && s.sync.grants[p].phase.Holding?
  {
    e.p == p && (s.sync.grants[p].phase.left > 1 ==> e.o + 2 < Size(s.arrived[p]))
  }

  /** One step of the lock as events of the server. */
  lemma RealizeOne(s: Server, step: Step, a: nat, b: nat, spot: nat) returns (es: seq<Event>)
    requires Fits(FileSize(spot), s) && Enabled(s.sync, step) && Roomy([step], spot)
    requires AllPlaced(s.arrived, a, b, spot)
    ensures Play(s, es).Some? && AllPlaced(Play(s, es).value.arrived, a, b, spot)
    ensures Locks(es) == [step]
    ensures forall e | e in es && e.Move? :: step == Complete(e.p) && MayMove(s, e.p, e)
  {
    match step
    case Arrive(j) =>
      assert step in [step];
      var t := Pick(j, |s.arrived|, a, b, spot);
      PickIsFor(j, |s.arrived|, a, b, spot);
      es := [Begin(t)];
      assert Play(s, es) == Play(After(s, Begin(t)), []);
      assert Locks(es) == [step] + Locks([]);
    case Resume(p) =>
      es := [Wakeup(p)];
      assert Play(s, es) == Play(After(s, Wakeup(p)), []);
      assert Locks(es) == [step] + Locks([]);
    case Complete(p) =>
      assert Placed(s.arrived[p], p, a, b, spot);
      es := FinishOne(FileSize(spot), s, p);
  }

  /** In `l` grant `p` has units to give back, or to take first. */
  predicate Pending(l: State, p: nat) { p < |l.grants| && UnitsOf(l.grants[p]) > 0 }

  /** No move of `e` touches the last two bytes of a transfer that still has units in `end`. */
  predicate Early(end: Server, e: Event) {
    e.Move? && Pending(end.sync, e.p) ==> e.p < |end.arrived| && e.o + 2 < Size(end.arrived[e.p])
  }

  /** Every schedule is the schedule of a run of the server, with stripes completing from the front. */
  lemma {:induction false} Realize(s: Server, steps: seq<Step>, a: nat, b: nat, spot: nat) returns (es: seq<Event>)
    requires Fits(FileSize(spot), s) && Exec(s.sync, steps).Some? && Roomy(steps, spot)
    requires AllPlaced(s.arrived, a, b, spot)
    ensures Play(s, es).Some? && Locks(es) == steps
    ensures AllPlaced(Play(s, es).value.arrived, a, b, spot) && Fits(FileSize(spot), Play(s, es).value)
    ensures forall e | e in es :: Early(Play(s, es).value, e)
    decreases |steps|
  {
    if steps == [] {
      es := [];
    } else {
      assert steps[0] in steps;
      var first := RealizeOne(s, steps[0], a, b, spot);
      var t := Play(s, first).value;
      LocksRun(s, first);
      FitsRun(FileSize(spot), s, first);
      ExecOne(s.sync, steps[0]);
      var rest := Realize(t, steps[1..], a, b, spot);
      es := first + rest;
      JoinRuns(s, first, rest);
      assert steps == [steps[0]] + steps[1..];
      LocksRun(s, es);
      forall e | e in first && e.Move? ensures Early(Play(s, es).value, e) {
        FirstIsEarly(s, es, e);
      }
    }
  }

  lemma FirstIsEarly(s: Server, es: seq<Event>, e: Event)
    requires Play(s, es).Some? && Exec(s.sync, Locks(es)) == Some(Play(s, es).value.sync)
    requires e.Move? && Granted(s, e.p) && s.sync.grants[e.p].phase.Holding? && MayMove(s, e.p, e)
    requires Locks(es) != [] && Locks(es)[0] == Complete(e.p)
    ensures Early(Play(s, es).value, e)
  {
    BeginsInOrder(s, es);
    UnitsConserved(s.sync, Locks(es), e.p);
    assert Completions(Locks(es), e.p) >= 1;
    assert Play(s, es).value.arrived[e.p] == s.arrived[e.p];
  }

  // ---------------------------------------------------------------- the two bytes at the spot

  /** Transfer `p` has not moved its last two bytes, if it has been granted at all. */
  predicate Untouched(s: Server, p: nat) {
    p < |s.progress| <= |s.arrived| ==>
      forall o | o in s.progress[p].moved :: o + 2 < Size(s.arrived[p])
  }

  /** Nobody has touched the spot. */
  predicate Clean(s: Server, a: nat, b: nat, spot: nat) {
    && spot + 1 < |s.file| && s.file[spot] == s.file[spot + 1] == 0
    && Untouched(s, a) && Untouched(s, b)
  }

  lemma CleanStep(s: Server, e: Event, a: nat, b: nat, spot: nat)
    requires Clean(s, a, b, spot) && Possible(s, e) && |s.progress| <= |s.arrived|
    requires |After(s, e).progress| <= |After(s, e).arrived|
    requires AllPlaced(After(s, e).arrived, a, b, spot)
    requires e.Move? && (e.p == a || e.p == b) ==> e.o + 2 < Size(s.arrived[e.p])
    ensures Clean(After(s, e), a, b, spot)
  {
    EventArrived(s, e);
    if e.Move? {
      assert Placed(s.arrived[e.p], e.p, a, b, spot);
    }
  }

  lemma ArrivedGrows(s: Server, es: seq<Event>, a: nat, b: nat, spot: nat)
    requires Play(s, es).Some? && AllPlaced(Play(s, es).value.arrived, a, b, spot)
    ensures |s.arrived| <= |Play(s, es).value.arrived| && Play(s, es).value.arrived[..|s.arrived|] == s.arrived
    ensures AllPlaced(s.arrived, a, b, spot)
  {
    BeginsInOrder(s, es);
    var all := Play(s, es).value.arrived;
    assert forall i | 0 <= i < |s.arrived| :: s.arrived[i] == all[i];
  }

  lemma {:induction false} CleanRun(size: nat, s: Server, es: seq<Event>, a: nat, b: nat, spot: nat)
    requires Fits(size, s) && Clean(s, a, b, spot) && Play(s, es).Some?
    requires AllPlaced(Play(s, es).value.arrived, a, b, spot)
    requires Pending(Play(s, es).value.sync, a) && Pending(Play(s, es).value.sync, b)
    requires forall e | e in es :: Early(Play(s, es).value, e)
    ensures Clean(Play(s, es).value, a, b, spot)
    decreases |es|
  {
    if es == [] {
    } else {
      var e, t := es[0], After(s, es[0]);
      assert Early(Play(s, es).value, e);
      FitsStep(size, s, e);
      ArrivedGrows(s, es, a, b, spot);
      ArrivedGrows(t, es[1..], a, b, spot);
      CleanStep(s, e, a, b, spot);
      CleanRun(size, t, es[1..], a, b, spot);
    }
  }

  /** Transfer `p` has moved both bytes at the spot. */
  predicate BothMoved(s: Server, p: nat) {
    && p < |s.progress| <= |s.arrived| && Size(s.arrived[p]) >= 2
    && Size(s.arrived[p]) - 2 in s.progress[p].moved && Size(s.arrived[p]) - 1 in s.progress[p].moved
  }

  /** It read two different bytes there. */
  predicate Uneven(s: Server, p: nat)
    requires BothMoved(s, p)
  {
    var t, moved := s.arrived[p], s.progress[p].moved;
    t.Read? && moved[Size(t) - 2] != moved[Size(t) - 1]
  }

  /** `a` and `b` have met, and the bytes at the spot or the bytes that were read there differ. */
  predicate Torn(s: Server, a: nat, b: nat, spot: nat) {
    && BothMoved(s, a) && BothMoved(s, b) && spot + 1 < |s.file|
    && if s.arrived[a].Write? && s.arrived[b].Write? then s.file[spot] != s.file[spot + 1]
       else Uneven(s, a) || Uneven(s, b)
  }

  /** What a transfer has moved at the spot, another event does not change. */
  lemma BothMovedStays(s: Server, e: Event, p: nat)
    requires BothMoved(s, p) && Possible(s, e) && |After(s, e).progress| <= |After(s, e).arrived|
    ensures BothMoved(After(s, e), p) && s.arrived[p] == After(s, e).arrived[p]
    ensures Uneven(After(s, e), p) == Uneven(s, p)
  {
    EventArrived(s, e);
  }

  lemma TornStep(s: Server, e: Event, a: nat, b: nat, spot: nat)
    requires Torn(s, a, b, spot) && Possible(s, e) && AllPlaced(s.arrived, a, b, spot)
    requires |After(s, e).progress| <= |After(s, e).arrived|
    ensures Torn(After(s, e), a, b, spot)
  {
    BothMovedStays(s, e, a);
    BothMovedStays(s, e, b);
    if e.Move? {
      assert Placed(s.arrived[e.p], e.p, a, b, spot);
    }
  }

  lemma {:induction false} TornRun(size: nat, s: Server, es: seq<Event>, a: nat, b: nat, spot: nat)
    requires Fits(size, s) && Torn(s, a, b, spot) && Play(s, es).Some?
    requires AllPlaced(Play(s, es).value.arrived, a, b, spot)
    ensures Torn(Play(s, es).value, a, b, spot)
    decreases |es|
  {
    if es == [] {
    } else {
      FitsStep(size, s, es[0]);
      ArrivedGrows(s, es, a, b, spot);
      TornStep(s, es[0], a, b, spot);
      TornRun(size, After(s, es[0]), es[1..], a, b, spot);
    }
  }

  /** What moving one of the bytes at the spot changes there; `k` is 0 or 1. */
  ghost predicate MovesAt(s: Server, p: nat, o: nat, spot: nat, k: nat, r: Server) {
    && r.sync == s.sync && r.arrived == s.arrived
    && |r.file| == |s.file| > spot + 1 && |r.progress| == |s.progress| && p < |s.progress| <= |s.arrived|
    && (forall q | 0 <= q < |s.progress| && q != p :: r.progress[q] == s.progress[q])
    && r.progress[p].moved.Keys == s.progress[p].moved.Keys + {o}
    && (forall i | i in s.progress[p].moved && i != o :: r.progress[p].moved[i] == s.progress[p].moved[i])
    && k <= 1 && r.file[spot + 1 - k] == s.file[spot + 1 - k]
    && if s.arrived[p].Read? then r.file[spot + k] == s.file[spot + k] == r.progress[p].moved[o]
       else o < |s.arrived[p].data| && r.file[spot + k] == s.arrived[p].data[o]
  }

  /** Transfer `p` can move its byte `o`, which lies at the spot or behind it. */
  predicate Ready(s: Server, p: nat, o: nat, spot: nat, k: nat) {
    && p < |s.progress| == |s.sync.grants| <= |s.arrived| && s.sync.grants[p].phase.Holding?
    && o < Size(s.arrived[p]) && o !in s.progress[p].moved && Inside(s.arrived[p], |s.file|)
    && spot + 1 < |s.file| && k <= 1 && s.arrived[p].off + o == spot + k
  }

  lemma MoveAt(s: Server, p: nat, o: nat, spot: nat, k: nat, rest: seq<Event>) returns (r: Server)
    requires Ready(s, p, o, spot, k)
    ensures MovesAt(s, p, o, spot, k, r)
    ensures Play(s, [Move(p, o)] + rest) == Play(r, rest) && Locks([Move(p, o)] + rest) == Locks(rest)
  {
    r := After(s, Move(p, o));
    PlayOne(s, Move(p, o), r, rest);
    LocksConcat([Move(p, o)], rest);
    assert Locks([Move(p, o)]) == [] + Locks([]);
  }

  lemma StillReady(s: Server, q: nat, i: nat, spot: nat, l: nat, r: Server, p: nat, o: nat, k: nat)
    requires MovesAt(s, q, i, spot, l, r) && Ready(s, p, o, spot, k) && (p != q || o != i)
    ensures Ready(r, p, o, spot, k)
  {
  }

  /** The four moves leave the spot torn. */
  lemma MeetTears(s: Server, s1: Server, s2: Server, s3: Server, s4: Server, a: nat, x: nat, b: nat, y: nat, spot: nat)
    requires a != b && a < |s.progress| <= |s.arrived| && b < |s.progress|
    requires Placed(s.arrived[a], a, a, b, spot) && Placed(s.arrived[b], b, a, b, spot) && Clean(s, a, b, spot)
    requires s.arrived[a].Write? || s.arrived[b].Write?
    requires x == Size(s.arrived[a]) - 2 && y == Size(s.arrived[b]) - 2
    requires MovesAt(s, b, y, spot, 0, s1) && MovesAt(s1, a, x, spot, 0, s2)
    requires MovesAt(s2, a, x + 1, spot, 1, s3) && MovesAt(s3, b, y + 1, spot, 1, s4)
    ensures Torn(s4, a, b, spot) && s4.sync == s.sync && s4.arrived == s.arrived
  {
  }

  /** `b` moves its first byte at the spot, `a` both, and `b` the other. */
  lemma FourMoves(s: Server, a: nat, x: nat, b: nat, y: nat, spot: nat)
    returns (es: seq<Event>, s1: Server, s2: Server, s3: Server, s4: Server)
    requires a != b && Ready(s, a, x, spot, 0) && Ready(s, a, x + 1, spot, 1)
    requires Ready(s, b, y, spot, 0) && Ready(s, b, y + 1, spot, 1)
    ensures MovesAt(s, b, y, spot, 0, s1) && MovesAt(s1, a, x, spot, 0, s2)
    ensures MovesAt(s2, a, x + 1, spot, 1, s3) && MovesAt(s3, b, y + 1, spot, 1, s4)
    ensures Play(s, es) == Some(s4) && Locks(es) == []
  {
    var last := [Move(a, x + 1)] + ([Move(b, y + 1)] + []);
    s1, s2 := TwoMoves(s, b, y, 0, a, x, 0, spot, last);
    TwoReady(s, b, y, 0, s1, a, x, 0, s2, spot, a, x + 1, 1);
    TwoReady(s, b, y, 0, s1, a, x, 0, s2, spot, b, y + 1, 1);
    s3, s4 := TwoMoves(s2, a, x + 1, 1, b, y + 1, 1, spot, []);
    es := [Move(b, y)] + ([Move(a, x)] + last);
  }

  /** Two conflicting transfers that hold the lock together meet. */
  lemma Meet(size: nat, s: Server, a: nat, b: nat, spot: nat) returns (es: seq<Event>, r: Server)
    requires Fits(size, s) && AllPlaced(s.arrived, a, b, spot) && Clean(s, a, b, spot) && a != b
    requires a < |s.sync.grants| && s.sync.grants[a].phase.Holding?
    requires b < |s.sync.grants| && s.sync.grants[b].phase.Holding?
    requires s.arrived[a].Write? || s.arrived[b].Write?
    ensures Play(s, es) == Some(r) && Locks(es) == []
    ensures r.sync == s.sync && r.arrived == s.arrived && Torn(r, a, b, spot)
  {
    MeetReady(size, s, a, b, spot);
    es, r := MeetFrom(s, s.arrived[a], s.arrived[b], a, b, spot);
  }

  lemma MeetFrom(s: Server, t: Txn, u: Txn, a: nat, b: nat, spot: nat) returns (es: seq<Event>, r: Server)
    requires AllReady(s, a, b, spot) && a != b && Clean(s, a, b, spot)
    requires t == s.arrived[a] && u == s.arrived[b] && (t.Write? || u.Write?)
    requires Placed(t, a, a, b, spot) && Placed(u, b, a, b, spot)
    ensures Play(s, es) == Some(r) && Locks(es) == []
    ensures r.sync == s.sync && r.arrived == s.arrived && Torn(r, a, b, spot)
  {
    var s1, s2, s3;
    var x, y := Size(t) - 2, Size(u) - 2;
    es, s1, s2, s3, r := FourMoves(s, a, x, b, y, spot);
    MeetTears(s, s1, s2, s3, r, a, x, b, y, spot);
  }

  lemma TwoMoves(s: Server, p: nat, o: nat, k: nat, q: nat, i: nat, l: nat, spot: nat, rest: seq<Event>)
    returns (t: Server, r: Server)
    requires Ready(s, p, o, spot, k) && Ready(s, q, i, spot, l) && p != q
    ensures MovesAt(s, p, o, spot, k, t) && MovesAt(t, q, i, spot, l, r)
    ensures Play(s, [Move(p, o)] + ([Move(q, i)] + rest)) == Play(r, rest)
    ensures Locks([Move(p, o)] + ([Move(q, i)] + rest)) == Locks(rest)
  {
    t := MoveAt(s, p, o, spot, k, [Move(q, i)] + rest);
    StillReady(s, p, o, spot, k, t, q, i, l);
    r := MoveAt(t, q, i, spot, l, rest);
  }

  lemma TwoReady(s: Server, p: nat, o: nat, k: nat, t: Server, q: nat, i: nat, l: nat, r: Server, spot: nat,
                 p': nat, o': nat, k': nat)
    requires MovesAt(s, p, o, spot, k, t) && MovesAt(t, q, i, spot, l, r) && Ready(s, p', o', spot, k')
    requires (p' != p || o' != o) && (p' != q || o' != i)
    ensures Ready(r, p', o', spot, k')
  {
    StillReady(s, p, o, spot, k, t, p', o', k');
    StillReady(t, q, i, spot, l, r, p', o', k');
  }

  /** Both bytes of both transfers can move. */
  predicate AllReady(s: Server, a: nat, b: nat, spot: nat) {
    && a < |s.arrived| && b < |s.arrived| && Size(s.arrived[a]) >= 2 && Size(s.arrived[b]) >= 2
    && Ready(s, a, Size(s.arrived[a]) - 2, spot, 0) && Ready(s, a, Size(s.arrived[a]) - 1, spot, 1)
    && Ready(s, b, Size(s.arrived[b]) - 2, spot, 0) && Ready(s, b, Size(s.arrived[b]) - 1, spot, 1)
  }

  lemma MeetReady(size: nat, s: Server, a: nat, b: nat, spot: nat)
    requires Fits(size, s) && AllPlaced(s.arrived, a, b, spot) && Clean(s, a, b, spot) && a != b
    requires a < |s.sync.grants| && s.sync.grants[a].phase.Holding?
    requires b < |s.sync.grants| && s.sync.grants[b].phase.Holding?
    ensures Placed(s.arrived[a], a, a, b, spot) && Placed(s.arrived[b], b, a, b, spot)
    ensures AllReady(s, a, b, spot)
  {
  }

  // ---------------------------------------------------------------- no order explains it

  /** A transaction that leaves two bytes equal. */
  predicate Even(t: Txn, spot: nat) {
    t.Write? ==>
      && (t.off <= spot < t.off + |t.data| <==> t.off <= spot + 1 < t.off + |t.data|)
      && (t.off <= spot < t.off + |t.data| - 1 ==> t.data[spot - t.off] == t.data[spot + 1 - t.off])
  }

  lemma PlacedIsEven(t: Txn, i: nat, a: nat, b: nat, spot: nat)
    requires Placed(t, i, a, b, spot)
    ensures Even(t, spot)
  {
  }

  lemma {:induction false} EvenFile(f0: seq<byte>, ts: seq<Txn>, spot: nat)
    requires spot + 1 < |f0| && f0[spot] == f0[spot + 1]
    requires forall t | t in ts :: Even(t, spot) && Inside(t, |f0|)
    ensures |ApplyAll(f0, ts)| == |f0|
    ensures ApplyAll(f0, ts)[spot] == ApplyAll(f0, ts)[spot + 1]
  {
    if ts == [] {
    } else {
      var n := |ts| - 1;
      EvenFile(f0, ts[..n], spot);
      assert Even(ts[n], spot) && Inside(ts[n], |f0|);
    }
  }

  lemma EvenInOrder(f0: seq<byte>, arrived: seq<Txn>, order: seq<nat>, a: nat, b: nat, spot: nat)
    requires spot + 1 < |f0| && f0[spot] == f0[spot + 1]
    requires AllPlaced(arrived, a, b, spot) && AllInside(arrived, |f0|)
    requires forall i | 0 <= i < |order| :: order[i] < |arrived|
    ensures var file := ApplyAll(f0, Reordered(arrived, order));
            |file| == |f0| && file[spot] == file[spot + 1]
  {
    var ts := Reordered(arrived, order);
    forall t | t in ts ensures Even(t, spot) && Inside(t, |f0|) {
      var i :| 0 <= i < |ts| && ts[i] == t;
      PlacedIsEven(t, order[i], a, b, spot);
    }
    EvenFile(f0, ts, spot);
  }

  /** Once everything has finished, torn bytes fit no order. */
  lemma TornFitsNoOrder(f0: seq<byte>, s: Server, a: nat, b: nat, spot: nat, order: seq<nat>)
    requires Fits(|f0|, s) && AllPlaced(s.arrived, a, b, spot) && Torn(s, a, b, spot)
    requires spot + 1 < |f0| && f0[spot] == f0[spot + 1]
    requires s.sync.lock.queue == [] && !SomeActive(s.sync.grants)
    ensures !SerialInOrder(f0, s, order)
  {
    if SerialInOrder(f0, s, order) {
      if s.arrived[a].Write? && s.arrived[b].Write? {
        EvenInOrder(f0, s.arrived, order, a, b, spot);
        assert false;
      } else {
        var p := if Uneven(s, a) then a else b;
        ReadsEven(f0, s, a, b, spot, order, p);
        assert false;
      }
    }
  }

  lemma ReadsEven(f0: seq<byte>, s: Server, a: nat, b: nat, spot: nat, order: seq<nat>, p: nat)
    requires Fits(|f0|, s) && AllPlaced(s.arrived, a, b, spot) && spot + 1 < |f0| && f0[spot] == f0[spot + 1]
    requires !SomeActive(s.sync.grants) && SerialInOrder(f0, s, order)
    requires (p == a || p == b) && BothMoved(s, p) && s.arrived[p].Read?
    ensures !Uneven(s, p)
  {
    assert !Active(s.sync.grants[p]);
    var i := PlaceInOrder(f0, s, order, p);
    EvenInOrder(f0, s.arrived, order[..i], a, b, spot);
    assert Placed(s.arrived[p], p, a, b, spot);
    SameBytes(f0, s, p, Reordered(s.arrived, order[..i]), spot);
  }

  lemma PlaceInOrder(f0: seq<byte>, s: Server, order: seq<nat>, p: nat) returns (i: nat)
    requires SerialInOrder(f0, s, order) && Finished(s, p)
    ensures i < |order| && forall k | 0 <= k < i :: order[k] < |s.arrived|
    ensures ReadsAfter(f0, s, p, Reordered(s.arrived, order[..i]))
  {
    assert p in order;
    i :| i < |order| && order[i] == p;
  }

  lemma SameBytes(f0: seq<byte>, s: Server, p: nat, ts: seq<Txn>, spot: nat)
    requires ReadsAfter(f0, s, p, ts) && BothMoved(s, p) && s.arrived[p].Read?
    requires s.arrived[p].off + Size(s.arrived[p]) == spot + 2
    requires var file := ApplyAll(f0, ts); spot + 1 < |file| && file[spot] == file[spot + 1]
    ensures !Uneven(s, p)
  {
    var n := Size(s.arrived[p]);
    SliceEnd(ApplyAll(f0, ts), Returned(s, p), s.arrived[p].off, n);
    assert Returned(s, p)[n - 2] == s.progress[p].moved[n - 2];
    assert Returned(s, p)[n - 1] == s.progress[p].moved[n - 1];
  }

  lemma SliceEnd(file: seq<byte>, part: seq<byte>, off: nat, len: nat)
    requires 2 <= len && off + len <= |file| && part == file[off..off + len]
    ensures part[len - 2] == file[off + len - 2] && part[len - 1] == file[off + len - 1]
  {
  }

  // ---------------------------------------------------------------- draining

  /** From every state the lock can drain without an unsafe grant: sleepers resume first. */
  lemma {:induction false} SafeDrain(s: State) returns (more: seq<Step>)
    requires Inv(s)
    ensures Exec(s, more).Some? && AllSafe(s, more)
    ensures !CanProgress(Exec(s, more).value)
    ensures forall st | st in more :: !st.Arrive?
    decreases WorkAhead(s, |s.lock.queue|)
  {
    if !CanProgress(s) {
      more := [];
    } else {
      var step;
      if AnySignalled(s.grants) {
        var p: nat :| p < |s.grants| && IsSignalled(s.grants[p]);
        step := Resume(p);
      } else {
        var p: nat :| p < |s.grants| && Active(s.grants[p]);
        step := Complete(p);
      }
      StepDown(s, step);
      var rest := SafeDrain(Next(s, step));
      more := [step] + rest;
      assert more[1..] == rest;
    }
  }

  /** And it can without an unclear resumption: holders finish first. */
  lemma {:induction false} ClearDrain(s: State) returns (more: seq<Step>)
    requires Inv(s)
    ensures Exec(s, more).Some? && AllClear(s, more)
    ensures !CanProgress(Exec(s, more).value)
    ensures forall st | st in more :: !st.Arrive?
    decreases WorkAhead(s, |s.lock.queue|)
  {
    if !CanProgress(s) {
      more := [];
    } else {
      var step := ClearNext(s);
      StepDown(s, step);
      var rest := ClearDrain(Next(s, step));
      more := [step] + rest;
      assert more[1..] == rest;
    }
  }

  lemma ClearNext(s: State) returns (step: Step)
    requires Inv(s) && CanProgress(s)
    ensures Enabled(s, step) && ClearStep(s, step) && !step.Arrive?
  {
    if p: nat :| p < |s.grants| && Holds(s.grants[p]) {
      step := Complete(p);
    } else {
      var p: nat :| p < |s.grants| && Active(s.grants[p]);
      step := Resume(p);
      if HeldAgainst(s.lock, s.grants[p].job) {
        var q := HolderAgainst(s, s.grants[p].job);
        assert false;
      }
    }
  }

  lemma StepDown(s: State, step: Step)
    requires Inv(s) && Enabled(s, step) && !step.Arrive?
    ensures Inv(Next(s, step))
    ensures WorkAhead(Next(s, step), |Next(s, step).lock.queue|) < WorkAhead(s, |s.lock.queue|)
  {
    InvStep(s, step);
    ExecOne(s, step);
    assert Arrivals([step]) == Arrivals([]);
    DrainMeasure(s, [step]);
  }

  // ---------------------------------------------------------------- transfers that go wrong

  /** A schedule with two jobs that still have units, played so that the spot is untouched. */
  lemma PlayTo(steps: seq<Step>, a: nat, b: nat) returns (f0: seq<byte>, es: seq<Event>, spot: nat)
    requires Exec(INIT, steps).Some?
    requires Pending(Exec(INIT, steps).value, a) && Pending(Exec(INIT, steps).value, b)
    ensures Play(Start(f0), es).Some? && Locks(es) == steps
    ensures |f0| == FileSize(spot) && f0[spot] == f0[spot + 1]
    ensures var s := Play(Start(f0), es).value;
            && Fits(|f0|, s) && AllPlaced(s.arrived, a, b, spot) && Clean(s, a, b, spot)
            && s.sync == Exec(INIT, steps).value
  {
    spot := RoomFor(steps);
    f0 := seq(FileSize(spot), _ => 0);
    StartIsGood(f0);
    es := Realize(Start(f0), steps, a, b, spot);
    LocksRun(Start(f0), es);
    CleanRun(|f0|, Start(f0), es, a, b, spot);
  }

  /** Two conflicting jobs that hold the lock tear the spot, and then the run goes on to its end. */
  lemma TearAndDrain(f0: seq<byte>, s: Server, a: nat, b: nat, spot: nat, more: seq<Step>) returns (es: seq<Event>)
    requires |f0| == FileSize(spot) && f0[spot] == f0[spot + 1]
    requires Fits(|f0|, s) && AllPlaced(s.arrived, a, b, spot) && Clean(s, a, b, spot) && a != b
    requires a < |s.sync.grants| && s.sync.grants[a].phase.Holding?
    requires b < |s.sync.grants| && s.sync.grants[b].phase.Holding?
    requires Conflict(s.sync.grants[a].job, s.sync.grants[b].job)
    requires Exec(s.sync, more).Some? && !CanProgress(Exec(s.sync, more).value)
    requires forall st | st in more :: !st.Arrive?
    ensures Play(s, es).Some? && Locks(es) == more
    ensures !SerialSomehow(f0, Play(s, es).value)
  {
    JobAt(s.sync, s.arrived, a);
    JobAt(s.sync, s.arrived, b);
    var meet, t := Meet(|f0|, s, a, b, spot);
    FitsRun(|f0|, s, meet);
    var drain := Realize(t, more, a, b, spot);
    es := meet + drain;
    JoinRuns(s, meet, drain);
    LocksRun(t, drain);
    TornRun(|f0|, t, drain, a, b, spot);
    TornAtTheEnd(f0, Play(t, drain).value, a, b, spot);
  }

  lemma TornAtTheEnd(f0: seq<byte>, s: Server, a: nat, b: nat, spot: nat)
    requires Fits(|f0|, s) && AllPlaced(s.arrived, a, b, spot) && Torn(s, a, b, spot)
    requires spot + 1 < |f0| && f0[spot] == f0[spot + 1]
    requires !CanProgress(s.sync)
    ensures !SerialSomehow(f0, s)
  {
    QuietState(s.sync);
    assert !SomeActive(s.sync.grants);
    forall order ensures !SerialInOrder(f0, s, order) {
      TornFitsNoOrder(f0, s, a, b, spot, order);
    }
  }

  // ---------------------------------------------------------------- unclear resumptions

  /** The schedule of `es` begins with `steps` and has only clear steps after that. */
  predicate ClearlyFollows(es: seq<Event>, steps: seq<Step>) {
    && steps <= Locks(es) && Exec(INIT, steps).Some?
    && Exec(Exec(INIT, steps).value, Locks(es)[|steps|..]).Some?
    && AllClear(Exec(INIT, steps).value, Locks(es)[|steps|..])
  }

  /** After any run, a resumption that is not clear can be followed by clear steps only and fit no order. */
  lemma UnclearTears(steps: seq<Step>, step: Step) returns (f0: seq<byte>, es: seq<Event>)
    requires Exec(INIT, steps).Some? && Enabled(Exec(INIT, steps).value, step)
    requires !ClearStep(Exec(INIT, steps).value, step)
    ensures Play(Start(f0), es).Some? && ClearlyFollows(es, steps + [step])
    ensures !SerialSomehow(f0, Play(Start(f0), es).value)
  {
    var u, b := Exec(INIT, steps).value, step.p;
    InvReachable(steps);
    var a := HolderAgainst(u, u.grants[b].job);
    var v := Next(u, step);
    InvStep(u, step);
    ExecOneMore(steps, step);
    assert v.grants[a] == u.grants[a] && v.grants[b].phase == Holding(u.grants[b].job.cnt);
    var head, spot;
    f0, head, spot := PlayTo(steps + [step], a, b);
    var s := Play(Start(f0), head).value;
    var more := ClearDrain(v);
    var rest := TearAndDrain(f0, s, a, b, spot, more);
    es := head + rest;
    JoinRuns(Start(f0), head, rest);
    assert Locks(es)[|steps + [step]|..] == more;
  }

  lemma ExecOneMore(steps: seq<Step>, step: Step)
    requires Exec(INIT, steps).Some? && Enabled(Exec(INIT, steps).value, step)
    ensures Exec(INIT, steps + [step]) == Some(Next(Exec(INIT, steps).value, step))
  {
    ExecConcat(INIT, steps, [step]);
    ExecOne(Exec(INIT, steps).value, step);
  }

  // ---------------------------------------------------------------- unsafe grants

  /** The schedule of `es` begins with `steps` and has only safe steps after that. */
  predicate SafelyFollows(es: seq<Event>, steps: seq<Step>) {
    && steps <= Locks(es) && Exec(INIT, steps).Some?
    && Exec(Exec(INIT, steps).value, Locks(es)[|steps|..]).Some?
    && AllSafe(Exec(INIT, steps).value, Locks(es)[|steps|..])
  }

  /** The step grants a job the lock over the conflicting sleeper `a`. */
  ghost predicate Overtakes(s: State, step: Step, a: nat) {
    && Enabled(s, step) && a < |s.grants| < |Next(s, step).grants|
    && Next(s, step).grants[a] == s.grants[a] && IsSignalled(s.grants[a])
    && Conflict(s.grants[a].job, Next(s, step).grants[|s.grants|].job)
    && IsFresh(Next(s, step).grants[|s.grants|])
  }

  lemma UnsafeOvertakes(s: State, step: Step) returns (a: nat)
    requires Enabled(s, step) && !SafeStep(s, step)
    ensures Overtakes(s, step, a)
  {
    var j := if step.Arrive? then step.job else s.lock.queue[0];
    a :| a < |s.grants| && IsSignalled(s.grants[a]) && Conflict(s.grants[a].job, j);
    assert Next(s, step).grants[|s.grants|].job == j;
  }

  /** Both the sleeper and the newcomer come to hold the lock, by safe steps. */
  lemma WakeBoth(s: State, a: nat, b: nat) returns (wake: seq<Step>)
    requires a < |s.grants| && b < |s.grants| && a != b && IsSignalled(s.grants[a]) && IsFresh(s.grants[b])
    ensures Exec(s, wake).Some? && AllSafe(s, wake)
    ensures forall st | st in wake :: st.Resume?
    ensures var t := Exec(s, wake).value;
            && |t.grants| == |s.grants|
            && t.grants[a] == Grant(s.grants[a].job, Holding(s.grants[a].job.cnt))
            && t.grants[b] == Grant(s.grants[b].job, Holding(s.grants[b].job.cnt))
  {
    var t := Next(s, Resume(a));
    Prepend(s, Resume(a), []);
    if IsSignalled(s.grants[b]) {
      var last: seq<Step> := [Resume(b)] + [];
      Prepend(t, Resume(b), []);
      Prepend(s, Resume(a), last);
      wake := [Resume(a)] + last;
    } else {
      wake := [Resume(a)] + [];
    }
  }

  /** After any run, an unsafe grant can be followed by safe steps only and fit no order. */
  lemma UnsafeTears(steps: seq<Step>, step: Step) returns (f0: seq<byte>, es: seq<Event>)
    requires Exec(INIT, steps).Some? && Enabled(Exec(INIT, steps).value, step)
    requires !SafeStep(Exec(INIT, steps).value, step)
    ensures Play(Start(f0), es).Some? && SafelyFollows(es, steps + [step])
    ensures !SerialSomehow(f0, Play(Start(f0), es).value)
  {
    var u := Exec(INIT, steps).value;
    var a := UnsafeOvertakes(u, step);
    var v := Next(u, step);
    InvReachable(steps);
    InvStep(u, step);
    ExecOneMore(steps, step);
    var wake := WakeBoth(v, a, |u.grants|);
    InvRun(v, wake);
    var more := SafeDrain(Exec(v, wake).value);
    f0, es := UnsafePlay(steps + [step], v, wake, more, a, |u.grants|);
    ExecConcat(v, wake, more);
    assert Locks(es)[|steps + [step]|..] == wake + more;
  }

  lemma UnsafePlay(steps: seq<Step>, v: State, wake: seq<Step>, more: seq<Step>, a: nat, b: nat)
    returns (f0: seq<byte>, es: seq<Event>)
    requires Exec(INIT, steps) == Some(v) && Exec(v, wake).Some?
    requires var w := Exec(v, wake).value;
             && Inv(w) && a < |w.grants| && b < |w.grants| && a != b
             && w.grants[a].phase == Holding(w.grants[a].job.cnt)
             && w.grants[b].phase == Holding(w.grants[b].job.cnt)
             && Conflict(w.grants[a].job, w.grants[b].job)
             && Exec(w, more).Some? && !CanProgress(Exec(w, more).value)
    requires forall st | st in more :: !st.Arrive?
    ensures Play(Start(f0), es).Some? && Locks(es) == steps + (wake + more)
    ensures !SerialSomehow(f0, Play(Start(f0), es).value)
  {
    ExecConcat(INIT, steps, wake);
    var head, spot;
    f0, head, spot := PlayTo(steps + wake, a, b);
    var rest := TearAndDrain(f0, Play(Start(f0), head).value, a, b, spot, more);
    es := head + rest;
    JoinRuns(Start(f0), head, rest);
    Regroup(steps, wake, more);
  }

  // ---------------------------------------------------------------- the theorems

  /** All transfers that follow a part of the schedule and then safe steps are serial in the order of arrival. */
  ghost predicate SerialByArrival(steps: seq<Step>) {
    forall f0: seq<byte>, es: seq<Event>, part: seq<Step> |
      part <= steps && Play(Start(f0), es).Some? && SafelyFollows(es, part) ::
      SerialOutcome(f0, Play(Start(f0), es).value)
  }

  /** All of them are serial in some order. */
  ghost predicate SafelySerial(steps: seq<Step>) {
    forall f0: seq<byte>, es: seq<Event>, part: seq<Step> |
      part <= steps && Play(Start(f0), es).Some? && SafelyFollows(es, part) ::
      SerialSomehow(f0, Play(Start(f0), es).value)
  }

  /** All transfers that follow a part of the schedule and then clear steps are serial in some order. */
  ghost predicate ClearlySerial(steps: seq<Step>) {
    forall f0: seq<byte>, es: seq<Event>, part: seq<Step> |
      part <= steps && Play(Start(f0), es).Some? && ClearlyFollows(es, part) ::
      SerialSomehow(f0, Play(Start(f0), es).value)
  }

  lemma SafeIsSerial(f0: seq<byte>, es: seq<Event>, steps: seq<Step>)
    requires Exec(INIT, steps).Some? && AllSafe(INIT, steps)
    requires Play(Start(f0), es).Some? && SafelyFollows(es, steps)
    ensures SerialOutcome(f0, Play(Start(f0), es).value)
  {
    var rest := Locks(es)[|steps|..];
    assert Locks(es) == steps + rest;
    LocksRun(Start(f0), es);
    ExecConcat(INIT, steps, rest);
    Serializable(f0, es);
  }

  lemma ClearIsSerialSomehow(f0: seq<byte>, es: seq<Event>, steps: seq<Step>)
    requires Exec(INIT, steps).Some? && AllClear(INIT, steps)
    requires Play(Start(f0), es).Some? && ClearlyFollows(es, steps)
    ensures SerialSomehow(f0, Play(Start(f0), es).value)
  {
    var rest := Locks(es)[|steps|..];
    assert Locks(es) == steps + rest;
    LocksRun(Start(f0), es);
    ExecConcat(INIT, steps, rest);
    ClearIsSerial(f0, es);
  }

  lemma FrontIs(steps: seq<Step>, part: seq<Step>)
    requires part <= steps && Exec(INIT, steps).Some? && Exec(INIT, part).Some?
    ensures AllSafe(INIT, steps) ==> AllSafe(INIT, part)
    ensures AllClear(INIT, steps) ==> AllClear(INIT, part)
  {
    assert steps == part + steps[|part|..];
    ExecConcat(INIT, part, steps[|part|..]);
  }

  /** The steps in front of the first one that is not safe, and that one. */
  lemma {:induction false} FirstUnsafe(s: State, steps: seq<Step>) returns (front: seq<Step>, step: Step)
    requires Exec(s, steps).Some? && !AllSafe(s, steps)
    ensures front + [step] <= steps && Exec(s, front).Some? && Enabled(Exec(s, front).value, step)
    ensures !SafeStep(Exec(s, front).value, step)
    decreases |steps|
  {
    if !SafeStep(s, steps[0]) {
      front, step := [], steps[0];
    } else {
      var rest;
      rest, step := FirstUnsafe(Next(s, steps[0]), steps[1..]);
      front := [steps[0]] + rest;
      ExecFirst(s, steps[0], rest);
      assert front + [step] == [steps[0]] + (rest + [step]);
    }
  }

  lemma {:induction false} FirstUnclear(s: State, steps: seq<Step>) returns (front: seq<Step>, step: Step)
    requires Exec(s, steps).Some? && !AllClear(s, steps)
    ensures front + [step] <= steps && Exec(s, front).Some? && Enabled(Exec(s, front).value, step)
    ensures !ClearStep(Exec(s, front).value, step)
    decreases |steps|
  {
    if !ClearStep(s, steps[0]) {
      front, step := [], steps[0];
    } else {
      var rest;
      rest, step := FirstUnclear(Next(s, steps[0]), steps[1..]);
      front := [steps[0]] + rest;
      ExecFirst(s, steps[0], rest);
      assert front + [step] == [steps[0]] + (rest + [step]);
    }
  }

  lemma SafeSchedule(steps: seq<Step>)
    requires Exec(INIT, steps).Some? && AllSafe(INIT, steps)
    ensures SerialByArrival(steps)
  {
    forall f0: seq<byte>, es: seq<Event>, part: seq<Step> |
      part <= steps && Play(Start(f0), es).Some? && SafelyFollows(es, part)
      ensures SerialOutcome(f0, Play(Start(f0), es).value)
    {
      FrontIs(steps, part);
      SafeIsSerial(f0, es, part);
    }
  }

  lemma ByArrivalIsSomehow(steps: seq<Step>)
    requires SerialByArrival(steps)
    ensures SafelySerial(steps)
  {
    forall f0: seq<byte>, es: seq<Event>, part: seq<Step> |
      part <= steps && Play(Start(f0), es).Some? && SafelyFollows(es, part)
      ensures SerialSomehow(f0, Play(Start(f0), es).value)
    {
      StartIsGood(f0);
      FitsRun(|f0|, Start(f0), es);
      ArrivalIsAnOrder(f0, Play(Start(f0), es).value);
    }
  }

  lemma UnsafeSchedule(steps: seq<Step>)
    requires Exec(INIT, steps).Some? && !AllSafe(INIT, steps)
    ensures !SafelySerial(steps)
  {
    var front, step := FirstUnsafe(INIT, steps);
    var f0, es := UnsafeTears(front, step);
    NotSafelySerial(steps, front + [step], f0, es);
  }

  lemma NotSafelySerial(steps: seq<Step>, part: seq<Step>, f0: seq<byte>, es: seq<Event>)
    requires part <= steps && Play(Start(f0), es).Some? && SafelyFollows(es, part)
    requires !SerialSomehow(f0, Play(Start(f0), es).value)
    ensures !SafelySerial(steps)
  {
  }

  /**
   Serializability in the order of arrival, exactly: a schedule grants the lock over no
   conflicting sleeper, if and only if all transfers along any part of it, and along the
   continuations of that part without such a grant, are serial in the order of arrival,
   if and only if they are serial in any order at all; whatever their ranges and contents
   and however their bytes move.
   */
  lemma SerializableExactly(steps: seq<Step>)
    requires Exec(INIT, steps).Some?
    ensures AllSafe(INIT, steps) <==> SerialByArrival(steps)
    ensures AllSafe(INIT, steps) <==> SafelySerial(steps)
  {
    if AllSafe(INIT, steps) {
      SafeSchedule(steps);
      ByArrivalIsSomehow(steps);
    } else {
      UnsafeSchedule(steps);
      if SerialByArrival(steps) {
        ByArrivalIsSomehow(steps);
      }
    }
  }

  lemma ClearSchedule(steps: seq<Step>)
    requires Exec(INIT, steps).Some? && AllClear(INIT, steps)
    ensures ClearlySerial(steps)
  {
    forall f0: seq<byte>, es: seq<Event>, part: seq<Step> |
      part <= steps && Play(Start(f0), es).Some? && ClearlyFollows(es, part)
      ensures SerialSomehow(f0, Play(Start(f0), es).value)
    {
      FrontIs(steps, part);
      ClearIsSerialSomehow(f0, es, part);
    }
  }

  lemma UnclearSchedule(steps: seq<Step>)
    requires Exec(INIT, steps).Some? && !AllClear(INIT, steps)
    ensures !ClearlySerial(steps)
  {
    var front, step := FirstUnclear(INIT, steps);
    var f0, es := UnclearTears(front, step);
    NotClearlySerial(steps, front + [step], f0, es);
  }

  lemma NotClearlySerial(steps: seq<Step>, part: seq<Step>, f0: seq<byte>, es: seq<Event>)
    requires part <= steps && Play(Start(f0), es).Some? && ClearlyFollows(es, part)
    requires !SerialSomehow(f0, Play(Start(f0), es).value)
    ensures !ClearlySerial(steps)
  {
  }

  /**
   Serializability, exactly: every sleeper that resumes in a schedule finds the counters
   clear, so that conflicting jobs never hold the lock together, if and only if all
   transfers along any part of it, and along the continuations of that part of which the
   same is true, are serial in some order.
   */
  lemma SerializableSomehowExactly(steps: seq<Step>)
    requires Exec(INIT, steps).Some?
    ensures AllClear(INIT, steps) <==> ClearlySerial(steps)
  {
    if AllClear(INIT, steps) {
      ClearSchedule(steps);
    } else {
      UnclearSchedule(steps);
    }
  }
}
