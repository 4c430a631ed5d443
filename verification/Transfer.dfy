/**
 Moving the bytes of a request: the client's second-level split of a stripe into AIO
 blocks, the server's striped reads, and the client loops that put the replies together
 by offset.  Asynchronous operations take effect in an arbitrary order.
 */
module Transfer {
  import opened Sums
  import opened Bytes
  import opened Stripes

  // ---------------------------------------------------------------- copying tiles

  predicate Fits(t: Tile, base: nat, n: nat) { 0 < t.len && base <= t.off && t.off + t.len <= base + n }

  predicate AllFit(ts: seq<Tile>, base: nat, n: nat) { forall t | t in ts :: Fits(t, base, n) }

  /** Copy the stretch `t` of `data`, whose first byte is byte `base` of the file, to `dst` at `at`. */
  function CopyTile(dst: seq<byte>, at: nat, data: seq<byte>, base: nat, t: Tile): seq<byte>
    requires Fits(t, base, |data|)
  {
    PWrite(dst, at + t.off - base, data[t.off - base..t.off - base + t.len])
  }

  /** Copy the stretches `ts` one after the other. */
  function CopyTiles(dst: seq<byte>, at: nat, data: seq<byte>, base: nat, ts: seq<Tile>): seq<byte>
    requires AllFit(ts, base, |data|)
  {
    if ts == [] then dst
    else CopyTile(CopyTiles(dst, at, data, base, ts[..|ts|-1]), at, data, base, ts[|ts|-1])
  }

  lemma CoveredLast(i: int, ts: seq<Tile>)
    requires ts != []
    ensures Covered(i, ts) <==> Covered(i, ts[..|ts|-1]) || In(i, ts[|ts|-1])
  {
    if Covered(i, ts[..|ts|-1]) {
      var k :| 0 <= k < |ts| - 1 && In(i, ts[..|ts|-1][k]);
      assert In(i, ts[k]);
    }
    if Covered(i, ts) {
      var k :| 0 <= k < |ts| && In(i, ts[k]);
      if k < |ts| - 1 { assert In(i, ts[..|ts|-1][k]); }
    }
  }

  lemma CopiedOnce(dst: seq<byte>, at: nat, data: seq<byte>, base: nat, t: Tile)
    requires Fits(t, base, |data|)
    ensures var r := CopyTile(dst, at, data, base, t);
            && |dst| <= |r| && (|r| == |dst| || |r| == at + t.off - base + t.len)
            && at + t.off - base + t.len <= |r|
            && (forall i | 0 <= i < |r| ::
                  r[i] == if In(i + base - at, t) then data[i - at] else if i < |dst| then dst[i] else 0)
  {
    var part := data[t.off - base..t.off - base + t.len];
    assert |part| == t.len;
    forall i | 0 <= i < t.len ensures part[i] == data[t.off - base + i] {}
  }

  /** What the copies of `ts` make of `dst`: the data where a piece lies, elsewhere the old bytes. */
  ghost predicate Copied(r: seq<byte>, dst: seq<byte>, at: nat, data: seq<byte>, base: nat, ts: seq<Tile>) {
    && |dst| <= |r|
    && (|r| == |dst| || (data != [] && |r| <= at + |data|))
    && (forall x | base <= x < base + |data| && Covered(x, ts) :: at + x - base < |r|)
    && (forall i | 0 <= i < |r| ::
          r[i] == if at <= i < at + |data| && Covered(i + base - at, ts) then data[i - at]
                  else if i < |dst| then dst[i] else 0)
  }

  lemma {:induction false} CopiedAll(dst: seq<byte>, at: nat, data: seq<byte>, base: nat, ts: seq<Tile>)
    requires AllFit(ts, base, |data|)
    ensures Copied(CopyTiles(dst, at, data, base, ts), dst, at, data, base, ts)
  {
    if ts != [] {
      var front := ts[..|ts|-1];
      var t := ts[|ts|-1];
      assert t in ts;
      CopiedAll(dst, at, data, base, front);
      CopiedOnce(CopyTiles(dst, at, data, base, front), at, data, base, t);
      forall x ensures Covered(x, ts) <==> Covered(x, front) || In(x, t) {
        CoveredLast(x, ts);
      }
    } else {
      assert forall x :: !Covered(x, ts);
    }
  }

  lemma CoveredPermutation(i: int, a: seq<Tile>, b: seq<Tile>)
    requires multiset(a) == multiset(b)
    ensures Covered(i, a) ==> Covered(i, b)
  {
    if Covered(i, a) {
      var k :| 0 <= k < |a| && In(i, a[k]);
      assert a[k] in multiset(b);
      var j :| 0 <= j < |b| && b[j] == a[k];
      assert In(i, b[j]);
    }
  }

  /**
   In whatever order the pieces of a transfer are copied, the result is the one write of
   all the data: each byte arrives at its place and nothing else changes.
   */
  lemma AnyOrder(dst: seq<byte>, at: nat, data: seq<byte>, base: nat, ts: seq<Tile>, size: nat)
    requires size > 0 && multiset(ts) == multiset(Tiles(base, |data|, size))
    ensures AllFit(ts, base, |data|)
    ensures CopyTiles(dst, at, data, base, ts) == PWrite(dst, at, data)
  {
    PermutedTilesFit(base, |data|, ts, size);
    CopiedAll(dst, at, data, base, ts);
    if data != [] {
      assert Covered(base + (|data| - 1), ts);
    }
    CopiedEverywhere(CopyTiles(dst, at, data, base, ts), dst, at, data, base, ts);
  }

  lemma PermutedTilesFit(base: nat, n: nat, ts: seq<Tile>, size: nat)
    requires size > 0 && multiset(ts) == multiset(Tiles(base, n, size))
    ensures AllFit(ts, base, n)
    ensures forall i | base <= i < base + n :: Covered(i, ts)
  {
    var all := Tiles(base, n, size);
    TilesShape(base, n, size);
    TilesPartition(base, n, size);
    forall t | t in ts ensures Fits(t, base, n) {
      assert t in multiset(ts);
      assert t in all;
    }
    forall i | base <= i < base + n ensures Covered(i, ts) {
      assert Covered(i, all);
      CoveredPermutation(i, all, ts);
    }
  }

  lemma CopiedEverywhere(r: seq<byte>, dst: seq<byte>, at: nat, data: seq<byte>, base: nat, ts: seq<Tile>)
    requires Copied(r, dst, at, data, base, ts)
    requires forall i | base <= i < base + |data| :: Covered(i, ts)
    ensures r == PWrite(dst, at, data)
  {
    if data != [] {
      assert Covered(base + (|data| - 1), ts);
      assert at + |data| <= |r|;
    }
    assert |r| == |PWrite(dst, at, data)|;
  }

  lemma CopyOneMore(dst: seq<byte>, at: nat, data: seq<byte>, base: nat, done: seq<Tile>, t: Tile)
    requires AllFit(done, base, |data|) && Fits(t, base, |data|)
    ensures AllFit(done + [t], base, |data|)
    ensures CopyTiles(dst, at, data, base, done + [t]) ==
            CopyTile(CopyTiles(dst, at, data, base, done), at, data, base, t)
  {
    assert (done + [t])[..|done|] == done;
  }

  /** Completing operation `k` of `todo`: the tiles done and to do stay the tiles submitted. */
  lemma CompleteOne(done: seq<Tile>, todo: seq<Tile>, k: nat, base: nat, n: nat)
    requires k < |todo| && AllFit(todo, base, n)
    ensures Fits(todo[k], base, n) && AllFit(todo[..k] + todo[k+1..], base, n)
    ensures multiset(done + [todo[k]]) + multiset(todo[..k] + todo[k+1..]) == multiset(done) + multiset(todo)
  {
    assert todo[k] in todo;
    MoveOne(done, todo, k);
    forall t | t in todo[..k] + todo[k+1..] ensures Fits(t, base, n) {
      assert t in todo;
    }
  }

  // ---------------------------------------------------------------- AIO blocks

  /** One `pwrite` of a block of `data`, whose first byte is byte `base` of the file. */
  method WriteBlock(f: DiskFile, data: seq<byte>, base: nat, t: Tile)
    requires Fits(t, base, |data|)
    modifies f
    ensures f.bytes == CopyTile(old(f.bytes), base, data, base, t)
  {
    f.bytes := PWrite(f.bytes, t.off, data[t.off - base..t.off - base + t.len]);
  }

  /** What `pread` finds: the part of `[off, off + len)` that lies in the file. */
  function Available(file: seq<byte>, off: nat, len: nat): (r: seq<byte>)
    ensures |r| == if off + len <= |file| then len else if off < |file| then |file| - off else 0
    ensures forall i | 0 <= i < |r| :: off + i < |file| && r[i] == file[off + i]
    ensures off + len <= |file| ==> r == file[off..off + len]
  {
    if off >= |file| then [] else file[off..if off + len < |file| then off + len else |file|]
  }

  /** One `pread` of a block into its place in the buffer; what it does not find stays. */
  method ReadBlock(f: DiskFile, buf: array<byte>, base: nat, size: nat, t: Tile)
    requires Fits(t, base, size) && size <= buf.Length
    modifies buf
    ensures buf[..] == PWrite(old(buf[..]), t.off - base, Available(f.bytes, t.off, t.len))
  {
    var found := Available(f.bytes, t.off, t.len);
    forall i | 0 <= i < |found| {
      buf[t.off - base + i] := found[i];
    }
  }

  /** `write_file`: the blocks are written in an arbitrary order. */
  method WriteFile(f: DiskFile, buf: seq<byte>, offset: nat)
    requires buf != [] && Pieces(|buf|, AIO_STRIPE) < MAX_AIO_SUBMIT
    modifies f
    ensures f.bytes == PWrite(old(f.bytes), offset, buf)
  {
    var todo := AioBlocks(|buf|, offset);
    ghost var all, done: seq<Tile> := todo, [];
    PermutedTilesFit(offset, |buf|, todo, AIO_STRIPE);
    while todo != []
      invariant multiset(done) + multiset(todo) == multiset(all)
      invariant AllFit(todo, offset, |buf|) && AllFit(done, offset, |buf|)
      invariant f.bytes == CopyTiles(old(f.bytes), offset, buf, offset, done)
      decreases |todo|
    {
      var k :| 0 <= k < |todo|;
      CompleteOne(done, todo, k, offset, |buf|);
      CopyOneMore(old(f.bytes), offset, buf, offset, done, todo[k]);
      WriteBlock(f, buf, offset, todo[k]);
      done := done + [todo[k]];
      todo := todo[..k] + todo[k+1..];
    }
    AnyOrder(old(f.bytes), offset, buf, offset, done, AIO_STRIPE);
  }

  /** The buffer's front once all blocks are in: what was found, and behind it what was there. */
  ghost function Filled(was: seq<byte>, found: seq<byte>, size: nat): (r: seq<byte>)
    requires |found| <= size <= |was|
    ensures |r| == size
  {
    found + was[|found|..size]
  }

  /** Behind what was found the buffer keeps its bytes while blocks are copied. */
  lemma TailKept(was: seq<byte>, found: seq<byte>, base: nat, size: nat, done: seq<Tile>)
    requires |found| <= size <= |was| && AllFit(done, base, size)
    ensures var now := CopyTiles(was, 0, Filled(was, found, size), base, done);
            |now| == |was| && now[|found|..] == was[|found|..]
  {
    CopiedAll(was, 0, Filled(was, found, size), base, done);
  }

  /** A block that is found short is as good as one that copies the buffer's own bytes. */
  lemma ShortBlock(was: seq<byte>, now: seq<byte>, file: seq<byte>, base: nat, size: nat, t: Tile)
    requires |was| == |now| >= size && Fits(t, base, size)
    requires var n := |Available(file, base, size)|; now[n..] == was[n..]
    ensures CopyTile(now, 0, Filled(was, Available(file, base, size), size), base, t) ==
            PWrite(now, t.off - base, Available(file, t.off, t.len))
  {
    var found, part := Available(file, base, size), Available(file, t.off, t.len);
    var at := t.off - base;
    var all := Filled(was, found, size);
    var data := all[at..at + t.len];
    assert |part| <= |data| == t.len;
    forall i: nat | i < |data| ensures data[i] == if i < |part| then part[i] else now[at + i] {
      assert data[i] == all[at + i];
      FilledByte(was, now, file, base, size, at + i);
    }
    OverOwnBytes(now, at, data, part);
  }

  lemma FilledByte(was: seq<byte>, now: seq<byte>, file: seq<byte>, base: nat, size: nat, k: nat)
    requires |was| == |now| >= size && k < size
    requires var n := |Available(file, base, size)|; now[n..] == was[n..]
    ensures Filled(was, Available(file, base, size), size)[k] == if base + k < |file| then file[base + k] else now[k]
  {
    var found := Available(file, base, size);
    if base + k < |file| {
      assert k < |found|;
    } else {
      assert now[k] == now[|found|..][k - |found|] == was[|found|..][k - |found|];
    }
  }

  /** Writing the buffer's own bytes behind `part` adds nothing to writing `part`. */
  lemma OverOwnBytes(now: seq<byte>, at: nat, data: seq<byte>, part: seq<byte>)
    requires |part| <= |data| && at + |data| <= |now|
    requires forall i: nat | i < |data| :: data[i] == if i < |part| then part[i] else now[at + i]
    ensures PWrite(now, at, data) == PWrite(now, at, part)
  {
  }

  /** The buffer after the blocks `done`. */
  ghost predicate Loading(was: seq<byte>, now: seq<byte>, found: seq<byte>, base: nat, size: nat, done: seq<Tile>) {
    && |found| <= size <= |was| && AllFit(done, base, size)
    && now == CopyTiles(was, 0, Filled(was, found, size), base, done)
  }

  lemma LoadNext(was: seq<byte>, now: seq<byte>, file: seq<byte>, base: nat, size: nat, done: seq<Tile>, t: Tile)
    requires Loading(was, now, Available(file, base, size), base, size, done) && Fits(t, base, size)
    ensures Loading(was, PWrite(now, t.off - base, Available(file, t.off, t.len)), Available(file, base, size),
                    base, size, done + [t])
  {
    var found := Available(file, base, size);
    CopyOneMore(was, 0, Filled(was, found, size), base, done, t);
    TailKept(was, found, base, size, done);
    ShortBlock(was, now, file, base, size, t);
  }

  lemma LoadEnd(was: seq<byte>, now: seq<byte>, found: seq<byte>, base: nat, size: nat, done: seq<Tile>)
    requires Loading(was, now, found, base, size, done)
    requires multiset(done) == multiset(Tiles(base, size, AIO_STRIPE))
    ensures now == PWrite(was, 0, found)
  {
    AnyOrder(was, 0, Filled(was, found, size), base, done, AIO_STRIPE);
    FilledIsWritten(was, found, size);
  }

  lemma FilledIsWritten(was: seq<byte>, found: seq<byte>, size: nat)
    requires |found| <= size <= |was|
    ensures PWrite(was, 0, Filled(was, found, size)) == PWrite(was, 0, found)
  {
  }

  /** One more block of a buffer that was `was`. */
  method LoadBlock(f: DiskFile, buf: array<byte>, base: nat, size: nat, t: Tile,
                   ghost was: seq<byte>, ghost done: seq<Tile>)
    requires Fits(t, base, size) && size <= buf.Length
    requires Loading(was, buf[..], Available(f.bytes, base, size), base, size, done)
    modifies buf
    ensures Loading(was, buf[..], Available(f.bytes, base, size), base, size, done + [t])
  {
    LoadNext(was, buf[..], f.bytes, base, size, done, t);
    ReadBlock(f, buf, base, size, t);
  }

  /**
   `read_file`: the blocks arrive in the buffer in an arbitrary order; of a range that
   reaches beyond the end of the file only the part inside is read.
   */
  method ReadFile(f: DiskFile, buf: array<byte>, size: int, offset: nat)
    requires 0 < size <= buf.Length && Pieces(size, AIO_STRIPE) < MAX_AIO_SUBMIT
    modifies buf
    ensures buf[..] == PWrite(old(buf[..]), 0, Available(f.bytes, offset, size))
  {
    var todo := AioBlocks(size, offset);
    ghost var all, done: seq<Tile> := todo, [];
    ghost var was, found := buf[..], Available(f.bytes, offset, size);
    PermutedTilesFit(offset, size, todo, AIO_STRIPE);
    while todo != []
      invariant f.bytes == old(f.bytes)
      invariant multiset(done) + multiset(todo) == multiset(all)
      invariant AllFit(todo, offset, size) && Loading(was, buf[..], found, offset, size, done)
      decreases |todo|
    {
      var k :| 0 <= k < |todo|;
      CompleteOne(done, todo, k, offset, size);
      LoadBlock(f, buf, offset, size, todo[k], was, done);
      done := done + [todo[k]];
      todo := todo[..k] + todo[k+1..];
    }
    LoadEnd(was, buf[..], found, offset, size, done);
  }

  // ---------------------------------------------------------------- READ and GET

  /** A data reply: the bytes of one stripe and their offset in the file. */
  datatype Reply = Reply(off: nat, data: seq<byte>)

  function ReplyTile(r: Reply): Tile { Tile(r.off, |r.data|) }

  function ReplyTiles(rs: seq<Reply>): (ts: seq<Tile>)
    ensures |ts| == |rs| && forall i | 0 <= i < |rs| :: ts[i] == ReplyTile(rs[i])
  {
    seq(|rs|, i requires 0 <= i < |rs| => ReplyTile(rs[i]))
  }

  /** The replies are the stripes of `file[start..start+len]`, in some order. */
  ghost predicate Answers(rs: seq<Reply>, file: seq<byte>, start: nat, len: nat) {
    && start + len <= |file|
    && multiset(ReplyTiles(rs)) == multiset(Tiles(start, len, FILE_STRIPE))
    && AllReads(rs, file)
  }

  predicate IsRead(r: Reply, file: seq<byte>) {
    r.off + |r.data| <= |file| && r.data == file[r.off..r.off + |r.data|]
  }

  ghost predicate Answered(rs: seq<Reply>, todo: seq<Tile>, file: seq<byte>, start: nat, len: nat) {
    && multiset(ReplyTiles(rs)) + multiset(todo) == multiset(Tiles(start, len, FILE_STRIPE))
    && AllFit(todo, start, len)
    && AllReads(rs, file)
  }

  predicate AllReads(rs: seq<Reply>, file: seq<byte>) { forall i | 0 <= i < |rs| :: IsRead(rs[i], file) }

  /** The reply that carries the file's bytes. */
  function SliceReply(file: seq<byte>, t: Tile): (r: Reply)
    requires t.off + t.len <= |file|
    ensures ReplyTile(r) == t && IsRead(r, file)
  {
    Reply(t.off, file[t.off..t.off + t.len])
  }

  lemma AnswerOne(rs: seq<Reply>, todo: seq<Tile>, k: nat, file: seq<byte>, start: nat, len: nat)
    requires k < |todo| && start + len <= |file| && Answered(rs, todo, file, start, len)
    ensures Fits(todo[k], start, len)
    ensures Answered(rs + [SliceReply(file, todo[k])], todo[..k] + todo[k+1..], file, start, len)
  {
    CompleteOne(ReplyTiles(rs), todo, k, start, len);
    assert ReplyTiles(rs + [SliceReply(file, todo[k])]) == ReplyTiles(rs) + [todo[k]];
  }

  /**
   The file as the replies show it: where the range reaches beyond its end, they carry what
   their buffers held before, because the result of the read is not looked at.
   */
  function Seen(file: seq<byte>, start: nat, memory: seq<byte>): (r: seq<byte>)
    ensures file <= r && start + |memory| <= |r|
    ensures start + |memory| <= |file| ==> r == file
    ensures forall x | start <= x < start + |memory| :: r[x] == if x < |file| then file[x] else memory[x - start]
  {
    file + seq(if start + |memory| > |file| then start + |memory| - |file| else 0,
               i requires 0 <= i < start + |memory| - |file| =>
                 if |file| + i >= start then memory[|file| + i - start] else 0)
  }

  /** The reply for one stripe whose buffer held its stretch of `memory`. */
  function ReplyFor(file: seq<byte>, start: nat, memory: seq<byte>, t: Tile): Reply
    requires Fits(t, start, |memory|)
  {
    var found := Available(file, t.off, t.len);
    Reply(t.off, found + memory[t.off - start + |found|..t.off - start + t.len])
  }

  lemma ReplySeen(file: seq<byte>, start: nat, memory: seq<byte>, t: Tile)
    requires Fits(t, start, |memory|)
    ensures ReplyFor(file, start, memory, t) == SliceReply(Seen(file, start, memory), t)
  {
  }

  /** The replies so far and the reads still in flight. */
  ghost predicate Replying(rs: seq<Reply>, todo: seq<Tile>, file: seq<byte>, start: nat, memory: seq<byte>) {
    Answered(rs, todo, Seen(file, start, memory), start, |memory|)
  }

  lemma ReplyNext(rs: seq<Reply>, todo: seq<Tile>, k: nat, file: seq<byte>, start: nat, memory: seq<byte>)
    requires k < |todo| && Replying(rs, todo, file, start, memory)
    ensures Fits(todo[k], start, |memory|)
    ensures Replying(rs + [ReplyFor(file, start, memory, todo[k])], todo[..k] + todo[k+1..], file, start, memory)
  {
    AnswerOne(rs, todo, k, Seen(file, start, memory), start, |memory|);
    ReplySeen(file, start, memory, todo[k]);
  }

  lemma ReplyEnd(rs: seq<Reply>, file: seq<byte>, start: nat, memory: seq<byte>)
    requires Replying(rs, [], file, start, memory)
    ensures Answers(rs, Seen(file, start, memory), start, |memory|)
    ensures |rs| == Pieces(|memory|, FILE_STRIPE)
  {
    OneReplyEach(rs, Seen(file, start, memory), start, |memory|);
  }

  /**
   The server submits one read a stripe into buffers that hold `memory`; their completions
   are answered as they come.
   */
  method ServerRead(f: DiskFile, start: nat, len: nat, memory: seq<byte>) returns (replies: seq<Reply>)
    requires start + len <= INT_MAX && |memory| == len
    ensures |replies| == Pieces(len, FILE_STRIPE)
    ensures Answers(replies, Seen(f.bytes, start, memory), start, len)
  {
    var todo := ServerStripes(start, len);
    replies := [];
    PermutedTilesFit(start, len, todo, FILE_STRIPE);
    assert ReplyTiles([]) == [];
    while todo != []
      invariant Replying(replies, todo, f.bytes, start, memory)
      decreases |todo|
    {
      var k :| 0 <= k < |todo|;
      ReplyNext(replies, todo, k, f.bytes, start, memory);
      replies := replies + [ReplyFor(f.bytes, start, memory, todo[k])];
      todo := todo[..k] + todo[k+1..];
    }
    ReplyEnd(replies, f.bytes, start, memory);
  }

  lemma OneReplyEach(rs: seq<Reply>, file: seq<byte>, start: nat, len: nat)
    requires Answers(rs, file, start, len)
    ensures |rs| == Pieces(len, FILE_STRIPE)
  {
    TilesShape(start, len, FILE_STRIPE);
    assert |multiset(ReplyTiles(rs))| == |rs|;
    assert |multiset(Tiles(start, len, FILE_STRIPE))| == |Tiles(start, len, FILE_STRIPE)|;
  }

  /** The replies fit the range, are the file's bytes, and have the range's length in all. */
  ghost predicate Regular(rs: seq<Reply>, file: seq<byte>, start: nat, len: nat) {
    && start + len <= |file|
    && AllFit(ReplyTiles(rs), start, len)
    && Total(Len, ReplyTiles(rs)) == len
    && AllReads(rs, file)
  }

  lemma AnswersAddUp(rs: seq<Reply>, file: seq<byte>, start: nat, len: nat)
    requires Answers(rs, file, start, len)
    ensures Regular(rs, file, start, len)
  {
    PermutedTilesFit(start, len, ReplyTiles(rs), FILE_STRIPE);
    TilesShape(start, len, FILE_STRIPE);
    TotalPermutation(Len, ReplyTiles(rs), Tiles(start, len, FILE_STRIPE));
  }

  lemma TotalNext(ts: seq<Tile>, i: nat)
    requires i < |ts|
    ensures Total(Len, ts[..i + 1]) == Total(Len, ts[..i]) + ts[i].len
  {
    assert ts[..i + 1] == ts[..i] + [ts[i]];
    TotalConcat(Len, ts[..i], [ts[i]]);
    assert Total(Len, [ts[i]]) == Len(ts[i]) + Total(Len, []);
  }

  /** While bytes are missing there is another reply. */
  lemma MoreToCome(ts: seq<Tile>, base: nat, n: nat, i: nat)
    requires AllFit(ts, base, n) && Total(Len, ts) == n && i <= |ts|
    ensures Total(Len, ts[..i]) <= n
    ensures Total(Len, ts[..i]) == n <==> i == |ts|
  {
    assert ts == ts[..i] + ts[i..];
    TotalConcat(Len, ts[..i], ts[i..]);
    if i < |ts| {
      assert ts[i] in ts;
      TotalOne(Len, ts[i..], 0);
    }
  }

  lemma FrontFits(ts: seq<Tile>, base: nat, n: nat, i: nat)
    requires AllFit(ts, base, n) && i < |ts|
    ensures AllFit(ts[..i], base, n) && AllFit(ts[..i + 1], base, n)
    ensures Fits(ts[i], base, n) && ts[..i + 1] == ts[..i] + [ts[i]]
  {
    assert forall t | t in ts[..i + 1] :: t in ts;
  }

  /** Storing a reply continues the copy of the stripes before it. */
  lemma ReplyCopied(dst: seq<byte>, ts: seq<Tile>, r: Reply, file: seq<byte>, start: nat, len: nat, i: nat)
    requires AllFit(ts, start, len) && i < |ts| && ts[i] == ReplyTile(r)
    requires start + len <= |file| && IsRead(r, file)
    ensures AllFit(ts[..i], start, len) && AllFit(ts[..i + 1], start, len)
    ensures Fits(ts[i], start, len)
    ensures CopyTiles(dst, 0, file[start..start + len], start, ts[..i + 1]) ==
            PWrite(CopyTiles(dst, 0, file[start..start + len], start, ts[..i]), r.off - start, r.data)
  {
    FrontFits(ts, start, len, i);
    CopyOneMore(dst, 0, file[start..start + len], start, ts[..i], ts[i]);
    ReplyIsSlice(r, file, start, len);
  }

  lemma ReplyIsSlice(r: Reply, file: seq<byte>, start: nat, len: nat)
    requires start + len <= |file| && IsRead(r, file) && Fits(ReplyTile(r), start, len)
    ensures file[start..start + len][r.off - start..r.off - start + |r.data|] == r.data
  {
    var part := file[start..start + len][r.off - start..r.off - start + |r.data|];
    assert |part| == |r.data|;
    forall i | 0 <= i < |part| ensures part[i] == r.data[i] {
      assert part[i] == file[r.off + i];
    }
  }

  /** What a receiving loop that has used the first `used` of the stripes `ts` has made of `dst`. */
  ghost predicate Assembled(dst: seq<byte>, now: seq<byte>, ts: seq<Tile>, file: seq<byte>,
                            start: nat, len: nat, used: nat) {
    && used <= |ts| && start + len <= |file|
    && AllFit(ts[..used], start, len)
    && now == CopyTiles(dst, 0, file[start..start + len], start, ts[..used])
  }

  /** How many bytes it still waits for; it goes on exactly while a reply is left. */
  ghost predicate Remains(ts: seq<Tile>, len: nat, used: nat, remain: int) {
    && used <= |ts| && remain >= 0
    && remain == len - Total(Len, ts[..used])
    && (remain > 0 <==> used < |ts|)
  }

  lemma StripeBlocks(rs: seq<Reply>, start: nat, len: nat, i: nat)
    requires i < |rs| && multiset(ReplyTiles(rs)) == multiset(Tiles(start, len, FILE_STRIPE))
    ensures rs[i].data != [] && Pieces(|rs[i].data|, AIO_STRIPE) < MAX_AIO_SUBMIT
  {
    var all := Tiles(start, len, FILE_STRIPE);
    assert ReplyTiles(rs)[i] in multiset(ReplyTiles(rs));
    assert ReplyTiles(rs)[i] in multiset(all);
    var k :| 0 <= k < |all| && all[k] == ReplyTiles(rs)[i];
    TilesShape(start, len, FILE_STRIPE);
    StripeFitsAio(start, len, k);
  }

  method CopyInto(buf: array<byte>, place: nat, data: seq<byte>)
    requires place + |data| <= buf.Length
    modifies buf
    ensures buf[..] == PWrite(old(buf[..]), place, data)
  {
    forall i | 0 <= i < |data| {
      buf[place + i] := data[i];
    }
  }

  lemma AssembleStart(dst: seq<byte>, rs: seq<Reply>, file: seq<byte>, start: nat, len: nat)
    requires Regular(rs, file, start, len)
    ensures Assembled(dst, dst, ReplyTiles(rs), file, start, len, 0)
    ensures Remains(ReplyTiles(rs), len, 0, len)
  {
    MoreToCome(ReplyTiles(rs), start, len, 0);
  }

  lemma AssembleNext(dst: seq<byte>, now: seq<byte>, ts: seq<Tile>, r: Reply, file: seq<byte>,
                     start: nat, len: nat, used: nat)
    requires AllFit(ts, start, len) && used < |ts| && ts[used] == ReplyTile(r) && IsRead(r, file)
    requires Assembled(dst, now, ts, file, start, len, used)
    ensures Fits(ReplyTile(r), start, len)
    ensures Assembled(dst, PWrite(now, r.off - start, r.data), ts, file, start, len, used + 1)
  {
    ReplyCopied(dst, ts, r, file, start, len, used);
  }

  lemma RemainsNext(ts: seq<Tile>, start: nat, len: nat, used: nat, remain: int)
    requires AllFit(ts, start, len) && Total(Len, ts) == len
    requires Remains(ts, len, used, remain) && remain > 0
    ensures Remains(ts, len, used + 1, remain - ts[used].len)
  {
    TotalNext(ts, used);
    MoreToCome(ts, start, len, used + 1);
  }

  lemma AssembleEnd(dst: seq<byte>, now: seq<byte>, ts: seq<Tile>, file: seq<byte>, start: nat, len: nat)
    requires Assembled(dst, now, ts, file, start, len, |ts|)
    requires multiset(ts) == multiset(Tiles(start, len, FILE_STRIPE))
    ensures now == PWrite(dst, 0, file[start..start + len])
  {
    assert ts[..|ts|] == ts;
    AnyOrder(dst, 0, file[start..start + len], start, ts, FILE_STRIPE);
  }

  /**
   The GET client: for every order of the replies its loop ends exactly when it has used
   all of them, and the requested bytes are in place; whatever the local file held
   beyond them stays.
   */
  method ReceiveGet(dest: DiskFile, replies: seq<Reply>, filesize: int, ghost file: seq<byte>)
    returns (used: nat)
    requires 0 < filesize && Answers(replies, file, 0, filesize)
    modifies dest
    ensures used == |replies|
    ensures dest.bytes == PWrite(old(dest.bytes), 0, file[0..filesize])
  {
    var remain := filesize;
    used := 0;
    ghost var ts := ReplyTiles(replies);
    AnswersAddUp(replies, file, 0, filesize);
    AssembleStart(dest.bytes, replies, file, 0, filesize);
    while remain > 0
      invariant Remains(ts, filesize, used, remain)
      invariant Assembled(old(dest.bytes), dest.bytes, ts, file, 0, filesize, used)
    {
      var r := replies[used];
      StripeBlocks(replies, 0, filesize, used);
      AssembleNext(old(dest.bytes), dest.bytes, ts, r, file, 0, filesize, used);
      RemainsNext(ts, 0, filesize, used, remain);
      WriteFile(dest, r.data, r.off);
      remain := remain - |r.data|;
      used := used + 1;
    }
    AssembleEnd(old(dest.bytes), dest.bytes, ts, file, 0, filesize);
  }

  /** The READ client: the same, into its fixed buffer, with offsets relative to the request. */
  method ReceiveRead(buf: array<byte>, replies: seq<Reply>, fileoffset: nat, total: int, ghost file: seq<byte>)
    returns (used: nat)
    requires 0 < total <= buf.Length && Answers(replies, file, fileoffset, total)
    modifies buf
    ensures used == |replies|
    ensures buf[..] == PWrite(old(buf[..]), 0, file[fileoffset..fileoffset + total])
  {
    var remain := total;
    used := 0;
    ghost var ts := ReplyTiles(replies);
    AnswersAddUp(replies, file, fileoffset, total);
    AssembleStart(buf[..], replies, file, fileoffset, total);
    while remain > 0
      invariant Remains(ts, total, used, remain)
      invariant Assembled(old(buf[..]), buf[..], ts, file, fileoffset, total, used)
    {
      var r := replies[used];
      AssembleNext(old(buf[..]), buf[..], ts, r, file, fileoffset, total, used);
      RemainsNext(ts, fileoffset, total, used, remain);
      CopyInto(buf, r.off - fileoffset, r.data);
      remain := remain - |r.data|;
      used := used + 1;
    }
    AssembleEnd(old(buf[..]), buf[..], ts, file, fileoffset, total);
  }

  /** The data half of READ, on the server and on the client. */
  method ReadRange(f: DiskFile, buf: array<byte>, start: nat, total: int, memory: seq<byte>) returns (used: nat)
    requires 0 < total <= buf.Length && start + total <= INT_MAX && |memory| == total
    modifies buf
    ensures used == Pieces(total, FILE_STRIPE)
    ensures buf[..] == PWrite(old(buf[..]), 0, Seen(f.bytes, start, memory)[start..start + total])
  {
    var replies := ServerRead(f, start, total, memory);
    used := ReceiveRead(buf, replies, start, total, Seen(f.bytes, start, memory));
  }

  // ---------------------------------------------------------------- WRITE

  lemma WriteNext(was: seq<byte>, now: seq<byte>, start: nat, buf: seq<byte>, at: nat, len: nat)
    requires at + len <= |buf| && now == PWrite(was, start, buf[..at])
    ensures PWrite(now, start + at, buf[at..at + len]) == PWrite(was, start, buf[..at + len])
  {
    PWriteAppend(was, start, buf[..at], buf[at..at + len]);
    assert buf[..at] + buf[at..at + len] == buf[..at + len];
  }

  /**
   The data half of WRITE: the client sends its buffer stripe by stripe, and the server
   writes each message at its offset before the client goes on.
   */
  method WriteRange(f: DiskFile, buf: seq<byte>, start: nat, len: int) returns (sent: nat)
    requires 0 < len <= |buf| && start + len <= INT_MAX
    modifies f
    ensures f.bytes == PWrite(old(f.bytes), start, buf[..len])
    ensures sent == Pieces(len, FILE_STRIPE)
  {
    var fileoffset, bufoffset, remain := start, 0, len;
    sent := 0;
    while remain > 0
      invariant 0 <= remain && 0 <= bufoffset && bufoffset + remain == len && fileoffset == start + bufoffset
      invariant sent + Pieces(remain, FILE_STRIPE) == Pieces(len, FILE_STRIPE)
      invariant f.bytes == PWrite(old(f.bytes), start, buf[..bufoffset])
    {
      var sendlen := if remain < FILE_STRIPE then remain else FILE_STRIPE;
      WriteNext(old(f.bytes), f.bytes, start, buf, bufoffset, sendlen);
      f.bytes := PWrite(f.bytes, fileoffset, buf[bufoffset..bufoffset + sendlen]);
      sent := sent + 1;
      fileoffset := fileoffset + sendlen;
      bufoffset := bufoffset + sendlen;
      remain := remain - sendlen;
    }
  }

  // ---------------------------------------------------------------- PUT

  /** The server's file after the first `offset` bytes have been put. */
  ghost predicate PutSoFar(was: seq<byte>, now: seq<byte>, src: seq<byte>, offset: int) {
    0 <= offset <= |src| && now == PWrite(was, 0, src[..offset])
  }

  lemma PutNext(was: seq<byte>, now: seq<byte>, src: seq<byte>, offset: nat, buf: seq<byte>, len: nat)
    requires PutSoFar(was, now, src, offset) && offset + len <= |src| && len <= |buf|
    requires buf[..len] == src[offset..offset + len]
    ensures PutSoFar(was, PWrite(now, offset, buf[..len]), src, offset + len)
  {
    PWriteAppend(was, 0, src[..offset], buf[..len]);
    assert src[..offset] + buf[..len] == src[..offset + len];
  }

  lemma StripeFitsBlocks(len: int)
    requires 0 < len <= FILE_STRIPE
    ensures Pieces(len, AIO_STRIPE) < MAX_AIO_SUBMIT
  {
    BlockCount(len);
  }

  /** `read_file` for one stripe: the front of the buffer is that stretch of the file. */
  method ReadStripe(f: DiskFile, buf: array<byte>, len: int, offset: nat)
    requires 0 < len <= FILE_STRIPE && buf.Length == FILE_STRIPE && offset + len <= |f.bytes|
    modifies buf
    ensures buf[..len] == f.bytes[offset..offset + len]
  {
    StripeFitsBlocks(len);
    ReadFile(f, buf, len, offset);
  }

  /** One data message of PUT, with its write on the server. */
  method PutStripe(local: DiskFile, server: DiskFile, buf: array<byte>, offset: nat, len: int, ghost was: seq<byte>)
    requires 0 < len <= FILE_STRIPE && buf.Length == FILE_STRIPE && offset + len <= |local.bytes| && local != server
    requires PutSoFar(was, server.bytes, local.bytes, offset)
    modifies server, buf
    ensures PutSoFar(was, server.bytes, local.bytes, offset + len)
  {
    ReadStripe(local, buf, len, offset);
    PutNext(was, server.bytes, local.bytes, offset, buf[..], len);
    assert buf[..][..len] == buf[..len];
    server.bytes := PWrite(server.bytes, offset, buf[..len]);
  }

  /**
   The PUT client with the server's side of each data message: stripes are read from the
   local file block by block and written to the server's file at their offset.
   */
  method Put(local: DiskFile, server: DiskFile, filesize: int) returns (sent: nat)
    requires 0 < filesize <= |local.bytes| && MessageCount(filesize).Some?
    requires local != server
    modifies server
    ensures server.bytes == PWrite(old(server.bytes), 0, local.bytes[..filesize])
    ensures sent == Pieces(filesize, FILE_STRIPE)
  {
    var buf := new byte[FILE_STRIPE](_ => 0);
    StripeCount(filesize);
    var cnt := MessageCount(filesize).value;
    var offset, remain := 0, filesize;
    sent := 0;
    while true
      invariant 0 < remain && 0 <= offset && offset + remain == filesize
      invariant cnt == Pieces(remain, FILE_STRIPE) && sent + cnt == Pieces(filesize, FILE_STRIPE)
      invariant PutSoFar(old(server.bytes), server.bytes, local.bytes, offset)
      decreases remain
    {
      var sendlen := if remain < FILE_STRIPE then remain else FILE_STRIPE;
      PutStripe(local, server, buf, offset, sendlen, old(server.bytes));
      sent := sent + 1;
      offset := offset + sendlen;
      remain := remain - sendlen;
      cnt := cnt - 1;
      if !(cnt > 0) { break; }
    }
  }

  /** PUT then GET is the identity, whatever order the asynchronous operations complete in. */
  method PutThenGet(local: DiskFile, server: DiskFile, dest: DiskFile, filesize: int)
    requires 0 < filesize <= |local.bytes| && MessageCount(filesize).Some?
    requires local != server && server != dest && local != dest
    modifies server, dest
    ensures dest.bytes == PWrite(old(dest.bytes), 0, local.bytes[..filesize])
    ensures filesize <= |dest.bytes| && dest.bytes[..filesize] == local.bytes[..filesize]
    ensures |old(dest.bytes)| <= filesize ==> dest.bytes == local.bytes[..filesize]
  {
    var sent := Put(local, server, filesize);
    var replies := ServerRead(server, 0, filesize, seq(filesize, _ => 0));
    var used := ReceiveGet(dest, replies, filesize, server.bytes);
    assert server.bytes[..filesize] == local.bytes[..filesize];
  }
}
