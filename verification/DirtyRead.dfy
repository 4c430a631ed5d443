/** A run without the hand-off on which a READ returns bytes that no serial execution shows. */
module DirtyRead {
  import opened Options
  import opened RwLock
  import opened Bytes
  import opened Stripes
  import opened Serial

  const W0 := Write(0, [0])
  const W1 := Write(0, [1, 1])
  const R0 := Read(0, 2)

  function DoneW0(): Progress { Progress(map[0 := 0], {0}) }

  lemma SmallJobs()
    ensures JobOf(W0) == Job(false, 1) && JobOf(W1) == Job(false, 1) && JobOf(R0) == Job(true, 1)
    ensures StripesOf(W0) == [Tile(0, 1)] && StripesOf(W1) == [Tile(0, 2)] && StripesOf(R0) == [Tile(0, 2)]
  {
    assert Tiles(0, 1, FILE_STRIPE) == [Tile(0, 1)] + Tiles(1, 0, FILE_STRIPE);
    assert Tiles(0, 2, FILE_STRIPE) == [Tile(0, 2)] + Tiles(2, 0, FILE_STRIPE);
  }

  function Dirty(file: seq<byte>, rcnt: int, wcnt: int, w: Grant, r: Grant, pw: Progress, pr: Progress): Server {
    Server(file,
           State(Lock(rcnt, wcnt, []), [Grant(Job(false, 1), Holding(0)), w, r]),
           [W0, W1, R0], [DoneW0(), pw, pr])
  }

  function Sleeping(): Grant { Grant(Job(false, 1), Signalled) }

  function Held(read: bool, left: nat): Grant { Grant(Job(read, 1), Holding(left)) }

  const WROTE := Progress(map[0 := 1, 1 := 1], {})
  const MIXED := Progress(map[0 := 0, 1 := 1], {})
  const HALFWAY := Server([0, 0], State(Lock(0, 1, [Job(false, 1)]), [Held(false, 1)]), [W0, W1], [FRESH])
  const HANDED := Server([0, 0], State(Lock(0, 0, []), [Held(false, 0), Sleeping()]), [W0, W1], [DoneW0(), FRESH])
  const BARGED := Dirty([0, 0], 1, 0, Sleeping(), Held(true, 1), FRESH, FRESH)
  const TORN := Dirty([1, 1], 1, 1, Held(false, 1), Held(true, 1), WROTE, MIXED)
  const DIRTY_END := Dirty([1, 1], 0, 1, Held(false, 1), Held(true, 0), WROTE, MIXED.(stripes := {0}))

  // The stages of the run, each in front of whatever follows.

  function Begins(es: seq<Event>): seq<Event> { [Begin(W0)] + ([Begin(W1)] + es) }

  function HandsOver(es: seq<Event>): seq<Event> { [Move(0, 0)] + ([Finish(0, 0)] + es) }

  function Barges(es: seq<Event>): seq<Event> { [Begin(R0)] + ([Move(2, 0)] + es) }

  function Tears(es: seq<Event>): seq<Event> { [Wakeup(1)] + ([Move(1, 0)] + ([Move(1, 1)] + ([Move(2, 1)] + es))) }

  /**
   A reader slips in before a signalled writer resumes: it reads one byte, the writer
   resumes and writes both, and it reads the other.
   */
  const DIRTY_RUN: seq<Event> := Begins(HandsOver(Barges(Tears([Finish(2, 0)] + []))))

  lemma DirtyBegins(es: seq<Event>)
    ensures Play(Start([0, 0]), Begins(es)) == Play(HALFWAY, es)
  {
    SmallJobs();
    var s1 := Server([0, 0], State(Lock(0, 1, []), [Held(false, 1)]), [W0], [FRESH]);
    PlayOne(Start([0, 0]), Begin(W0), s1, [Begin(W1)] + es);
    PlayOne(s1, Begin(W1), HALFWAY, es);
  }

  lemma DirtyHandOver(es: seq<Event>)
    ensures Play(HALFWAY, HandsOver(es)) == Play(HANDED, es)
  {
    SmallJobs();
    var s3 := HALFWAY.(progress := [Progress(map[0 := 0], {})]);
    assert Wake(s3.sync.lock.queue[..1]) == [Sleeping()];
    assert Next(s3.sync, Complete(0)).grants == [Held(false, 0)] + [Sleeping()];
    assert Next(s3.sync, Complete(0)).lock == Lock(0, 0, []);
    assert s3.progress[0].stripes + {0} == {0};
    assert After(s3, Finish(0, 0)).progress == [DoneW0(), FRESH];
    PlayOne(HALFWAY, Move(0, 0), s3, [Finish(0, 0)] + es);
    PlayOne(s3, Finish(0, 0), HANDED, es);
  }

  lemma DirtyBarges(es: seq<Event>)
    ensures Play(HANDED, Barges(es)) ==
            Play(Dirty([0, 0], 1, 0, Sleeping(), Held(true, 1), FRESH, Progress(map[0 := 0], {})), es)
  {
    SmallJobs();
    PlayOne(HANDED, Begin(R0), BARGED, [Move(2, 0)] + es);
    PlayOne(BARGED, Move(2, 0),
            Dirty([0, 0], 1, 0, Sleeping(), Held(true, 1), FRESH, Progress(map[0 := 0], {})), es);
  }

  lemma DirtyTears(es: seq<Event>)
    ensures Play(Dirty([0, 0], 1, 0, Sleeping(), Held(true, 1), FRESH, Progress(map[0 := 0], {})), Tears(es)) ==
            Play(TORN, es)
  {
    SmallJobs();
    var half, w1 := Progress(map[0 := 0], {}), Progress(map[0 := 1], {});
    var t1 := Dirty([0, 0], 1, 0, Sleeping(), Held(true, 1), FRESH, half);
    var t2 := Dirty([0, 0], 1, 1, Held(false, 1), Held(true, 1), FRESH, half);
    var t3 := Dirty([1, 0], 1, 1, Held(false, 1), Held(true, 1), w1, half);
    var t4 := Dirty([1, 1], 1, 1, Held(false, 1), Held(true, 1), WROTE, half);
    var e4 := [Move(2, 1)] + es;
    var e3 := [Move(1, 1)] + e4;
    PlayOne(t1, Wakeup(1), t2, [Move(1, 0)] + e3);
    PlayOne(t2, Move(1, 0), t3, e3);
    PlayOne(t3, Move(1, 1), t4, e4);
    PlayOne(t4, Move(2, 1), TORN, es);
  }

  lemma DirtyFinishes(es: seq<Event>)
    ensures Play(TORN, [Finish(2, 0)] + es) == Play(DIRTY_END, es)
  {
    SmallJobs();
    assert Next(TORN.sync, Complete(2)) == DIRTY_END.sync;
    assert TORN.progress[2].stripes + {0} == {0};
    assert After(TORN, Finish(2, 0)).progress == DIRTY_END.progress;
    PlayOne(TORN, Finish(2, 0), DIRTY_END, es);
  }

  lemma DirtyRun()
    ensures Play(Start([0, 0]), DIRTY_RUN) == Some(DIRTY_END)
  {
    var last: seq<Event> := [Finish(2, 0)] + [];
    DirtyBegins(HandsOver(Barges(Tears(last))));
    DirtyHandOver(Barges(Tears(last)));
    DirtyBarges(Tears(last));
    DirtyTears(last);
    DirtyFinishes([]);
  }

  /**
   Without the hand-off serializability fails: here a finished READ returns one byte from
   before a write and one from after it, which no point of the serial execution shows.
   */
  lemma SerializabilityCanFail()
    ensures Play(Start([0, 0]), DIRTY_RUN) == Some(DIRTY_END)
    ensures var s := DIRTY_END;
            && Granted(s, 2) && s.sync.grants[2].phase == Holding(0)
            && s.arrived[2] == R0 && AllMoved(s, 2) && Returned(s, 2) == [0, 1]
            && forall p: nat | p <= |s.arrived| :: Before([0, 0], s.arrived, p) != [0, 1]
  {
    DirtyRun();
    DirtyBefore();
  }

  /** The serial execution goes from two zeros to two ones. */
  lemma DirtyBefore()
    ensures Before([0, 0], [W0, W1, R0], 0) == Before([0, 0], [W0, W1, R0], 1) == [0, 0]
    ensures Before([0, 0], [W0, W1, R0], 2) == Before([0, 0], [W0, W1, R0], 3) == [1, 1]
  {
    BeforeStep([0, 0], [W0, W1, R0], 0);
    BeforeStep([0, 0], [W0, W1, R0], 1);
    BeforeStep([0, 0], [W0, W1, R0], 2);
    assert Before([0, 0], [W0, W1, R0], 0) == [0, 0];
    assert PWrite([0, 0], 0, [0]) == [0, 0];
    assert PWrite([0, 0], 0, [1, 1]) == [1, 1];
  }
}
