/**
 The arithmetic of a striped transfer: how the server clamps a request and prices its
 lock, how the client clamps the same request, and how the loops on both sides cut a
 range into stripes and a stripe into AIO blocks.
 */
module Stripes {
  import opened Options
  import opened Sums

  const FILE_STRIPE := 1048576
  const AIO_STRIPE := 131072
  const MAX_AIO_SUBMIT := 16
  const INT_MAX := 0x7fff_ffff

  type uint32 = x: int | 0 <= x < 0x1_0000_0000

  function Min(a: int, b: int): int { if a < b then a else b }

  /** Unsigned 32-bit arithmetic wraps. */
  function ToUint(x: int): uint32 { x % 0x1_0000_0000 }

  /** Storing an unsigned 32-bit value in an `int`. */
  function ToInt(x: uint32): int { if x <= INT_MAX then x else x - 0x1_0000_0000 }

  /** Signed addition; `None` where C leaves an overflowing sum undefined. */
  function AddInt(a: int, b: int): Option<int> {
    if -INT_MAX - 1 <= a + b <= INT_MAX then Some(a + b) else None
  }

  // ---------------------------------------------------------------- clamping

  /** The server's `remain` for READ and WRITE: all operands are unsigned. */
  function ServerRemain(offset: uint32, reqlen: uint32, filesize: uint32): int {
    ToInt(if ToUint(offset + reqlen) > filesize then ToUint(filesize - offset) else reqlen)
  }

  /** The client's `remain`: all operands are `int`. */
  function ClientRemain(offset: int, reqlen: int, filesize: int): Option<int> {
    match AddInt(offset, reqlen)
    case None => None
    case Some(end) => if filesize < end then AddInt(filesize, -offset) else Some(reqlen)
  }

  /** What the clamp is for: the part of the requested range that lies inside the file. */
  predicate MeansInside(remain: int, offset: int, reqlen: int, filesize: int) {
    if offset < filesize then remain == Min(reqlen, filesize - offset) else remain <= 0
  }

  /**
   For every offset a message can carry, the server's wrapping clamp grants exactly the
   part of the range inside the file if and only if the end of the range does not wrap
   and the offset is at most 2^31 beyond the end of the file.
   */
  lemma ServerClampExactly(offset: uint32, reqlen: uint32, filesize: uint32)
    requires reqlen <= INT_MAX
    ensures MeansInside(ServerRemain(offset, reqlen, filesize), offset, reqlen, filesize) <==>
            (offset + reqlen < 0x1_0000_0000 && offset - filesize <= 0x8000_0000)
  {
    if offset + reqlen < 0x1_0000_0000 {
      assert ToUint(offset + reqlen) == offset + reqlen;
    } else {
      assert ToUint(offset + reqlen) == offset + reqlen - 0x1_0000_0000;
    }
    if filesize < offset {
      assert ToUint(filesize - offset) == filesize - offset + 0x1_0000_0000;
    } else {
      assert ToUint(filesize - offset) == filesize - offset;
    }
  }

  /**
   For every offset and length of a client and every catalogued size, the server's clamp is
   right and the client's is defined unless its sum overflows; the two agree, so that the
   client does not abandon a range for which the server has taken the lock, if and only if
   the sum does not overflow and the size fits an `int`.
   */
  lemma ClampAgreement(offset: uint32, reqlen: uint32, filesize: uint32)
    requires offset <= INT_MAX && reqlen <= INT_MAX
    ensures MeansInside(ServerRemain(offset, reqlen, filesize), offset, reqlen, filesize)
    ensures ClientRemain(offset, reqlen, ToInt(filesize)) == Some(ServerRemain(offset, reqlen, filesize)) <==>
            (offset + reqlen <= INT_MAX && filesize <= INT_MAX)
  {
    ServerClampExactly(offset, reqlen, filesize);
    assert ToUint(offset + reqlen) == offset + reqlen;
    if filesize < offset {
      assert ToUint(filesize - offset) == filesize - offset + 0x1_0000_0000;
    } else {
      assert ToUint(filesize - offset) == filesize - offset;
    }
  }

  /** The client's clamp is the smaller of the length and what is left, unless a sum overflows. */
  lemma ClientClampExactly(offset: int, reqlen: int, filesize: int)
    requires 0 <= offset < 0x8000_0000 && 0 <= reqlen < 0x8000_0000 && -0x8000_0000 <= filesize < 0x8000_0000
    ensures ClientRemain(offset, reqlen, filesize) ==
            if offset + reqlen >= 0x8000_0000 || filesize - offset < -0x8000_0000 then None
            else Some(Min(reqlen, filesize - offset))
  {
  }

  /** The server's clamp for all operands: its condition and its result are those of 32-bit arithmetic. */
  lemma ServerClampIs(offset: uint32, reqlen: uint32, filesize: uint32)
    ensures -0x8000_0000 <= ServerRemain(offset, reqlen, filesize) < 0x8000_0000
    ensures var end := if offset + reqlen < 0x1_0000_0000 then offset + reqlen else offset + reqlen - 0x1_0000_0000;
            var wanted := if end > filesize then filesize - offset else reqlen;
            (ServerRemain(offset, reqlen, filesize) - wanted) % 0x1_0000_0000 == 0
  {
    assert ToUint(offset + reqlen) ==
           if offset + reqlen < 0x1_0000_0000 then offset + reqlen else offset + reqlen - 0x1_0000_0000;
    assert ToUint(filesize - offset) ==
           if filesize < offset then filesize - offset + 0x1_0000_0000 else filesize - offset;
  }

  // ---------------------------------------------------------------- counting

  /** How many pieces of `size` bytes it takes to cover `n` bytes. */
  function Pieces(n: nat, size: nat): nat
    requires size > 0
    decreases n
  {
    if n == 0 then 0 else 1 + Pieces(if n < size then 0 else n - size, size)
  }

  /** The rounded-up division in the source counts the stripes. */
  lemma {:induction false} StripeCount(n: nat)
    ensures Pieces(n, FILE_STRIPE) == (n + FILE_STRIPE - 1) / FILE_STRIPE
    decreases n
  {
    if n == 0 {
    } else {
      StripeCount(if n < FILE_STRIPE then 0 else n - FILE_STRIPE);
    }
  }

  lemma {:induction false} BlockCount(n: nat)
    ensures Pieces(n, AIO_STRIPE) == (n + AIO_STRIPE - 1) / AIO_STRIPE
    decreases n
  {
    if n == 0 {
    } else {
      BlockCount(if n < AIO_STRIPE then 0 else n - AIO_STRIPE);
    }
  }

  /** `lock_cnt` as the server computes it from a positive `remain`. */
  function LockCount(remain: int): Option<int> {
    match AddInt(remain, FILE_STRIPE - 1)
    case None => None
    case Some(sum) => Some(sum / FILE_STRIPE)
  }

  /** `datamsg_cnt` as the PUT client computes it; the terms are added from left to right. */
  function MessageCount(filesize: int): Option<int> {
    match AddInt(filesize, FILE_STRIPE)
    case None => None
    case Some(sum) => Some((sum - 1) / FILE_STRIPE)
  }

  // ---------------------------------------------------------------- tiles

  /** A stretch of a file: one stripe or one AIO block. */
  datatype Tile = Tile(off: nat, len: nat)

  /** `[base, base + n)` cut from the left into pieces of `size` bytes and a last shorter one. */
  function Tiles(base: nat, n: nat, size: nat): seq<Tile>
    requires size > 0
    decreases n
  {
    if n == 0 then []
    else
      var len := if n < size then n else size;
      [Tile(base, len)] + Tiles(base + len, n - len, size)
  }

  predicate In(i: int, t: Tile) { t.off <= i < t.off + t.len }

  function Len(t: Tile): nat { t.len }

  predicate Covered(i: int, ts: seq<Tile>) {
    exists k | 0 <= k < |ts| :: In(i, ts[k])
  }

  /** The pieces are as many as needed, none is empty or too long, and they add up to `n` bytes. */
  lemma {:induction false} TilesShape(base: nat, n: nat, size: nat)
    requires size > 0
    ensures |Tiles(base, n, size)| == Pieces(n, size)
    ensures Total(Len, Tiles(base, n, size)) == n
    ensures forall t | t in Tiles(base, n, size) :: 0 < t.len <= size && base <= t.off && t.off + t.len <= base + n
    decreases n
  {
    if n == 0 {
    } else {
      var len := if n < size then n else size;
      TilesShape(base + len, n - len, size);
      assert Tiles(base, n, size)[1..] == Tiles(base + len, n - len, size);
    }
  }

  /** Every byte of the range, and no other, is in a piece, and in only one of them. */
  lemma {:induction false} TilesPartition(base: nat, n: nat, size: nat)
    requires size > 0
    ensures forall i :: Covered(i, Tiles(base, n, size)) <==> base <= i < base + n
    ensures forall j, k, i | 0 <= j < k < |Tiles(base, n, size)| ::
              !(In(i, Tiles(base, n, size)[j]) && In(i, Tiles(base, n, size)[k]))
    decreases n
  {
    if n == 0 {
    } else {
      var len := if n < size then n else size;
      var rest := Tiles(base + len, n - len, size);
      var all := Tiles(base, n, size);
      TilesPartition(base + len, n - len, size);
      assert forall k | 0 < k < |all| :: all[k] == rest[k-1];
      forall i
        ensures Covered(i, all) <==> In(i, all[0]) || Covered(i, rest)
      {
        if Covered(i, rest) {
          var k :| 0 <= k < |rest| && In(i, rest[k]);
          assert In(i, all[k+1]);
        }
      }
      forall j, k, i | 0 <= j < k < |all| && In(i, all[j])
        ensures !In(i, all[k])
      {
        if j == 0 {
          if In(i, all[k]) { assert Covered(i, rest); }
        } else {
          assert all[j] == rest[j-1];
        }
      }
    }
  }

  /** Stripe `k` starts `k` megabytes into the range and only the last one may be short. */
  lemma {:induction false} StripeAt(base: nat, n: nat, k: nat)
    requires k < |Tiles(base, n, FILE_STRIPE)|
    ensures k * FILE_STRIPE < n
    ensures Tiles(base, n, FILE_STRIPE)[k] == Tile(base + k * FILE_STRIPE, Min(FILE_STRIPE, n - k * FILE_STRIPE))
    decreases n
  {
    if k == 0 {
    } else {
      StripeAt(base + FILE_STRIPE, n - FILE_STRIPE, k - 1);
    }
  }

  // ---------------------------------------------------------------- the loops

  /** Cutting off the first piece. */
  lemma TakeTile(done: seq<Tile>, base: nat, n: nat, size: nat)
    requires 0 < size && 0 < n
    ensures var len := if n < size then n else size;
            done + [Tile(base, len)] + Tiles(base + len, n - len, size) == done + Tiles(base, n, size)
  {
    var len := if n < size then n else size;
    assert Tiles(base, n, size) == [Tile(base, len)] + Tiles(base + len, n - len, size);
  }

  /** The server's loop for a READ or GET data request: one `pread` a stripe. */
  method ServerStripes(start: int, len: int) returns (iocbs: seq<Tile>)
    requires 0 <= start && 0 <= len && start + len <= INT_MAX
    ensures iocbs == Tiles(start, len, FILE_STRIPE)
  {
    var offset, remain := start, len;
    iocbs := [];
    while remain > 0
      invariant 0 <= remain <= len && offset == start + len - remain
      invariant iocbs + Tiles(offset, remain, FILE_STRIPE) == Tiles(start, len, FILE_STRIPE)
    {
      var sendlen := if remain < FILE_STRIPE then remain else FILE_STRIPE;
      TakeTile(iocbs, offset, remain, FILE_STRIPE);
      iocbs := iocbs + [Tile(offset, sendlen)];
      offset := offset + sendlen;
      remain := remain - sendlen;
    }
  }

  /** Message `k` of a WRITE carries the buffer from the place where its stripe begins. */
  predicate InPlace(msgs: seq<Tile>, places: seq<nat>, start: nat) {
    |places| == |msgs| && forall k | 0 <= k < |msgs| :: places[k] == msgs[k].off - start
  }

  /** The client's loop for WRITE: one data message a stripe, with its place in the buffer. */
  method ClientWriteStripes(start: int, len: int) returns (msgs: seq<Tile>, places: seq<nat>)
    requires 0 <= start && 0 <= len && start + len <= INT_MAX
    ensures msgs == Tiles(start, len, FILE_STRIPE)
    ensures InPlace(msgs, places, start)
  {
    var fileoffset, bufoffset, remain := start, 0, len;
    msgs, places := [], [];
    while remain > 0
      invariant 0 <= remain <= len && fileoffset == start + len - remain && bufoffset == len - remain
      invariant msgs + Tiles(fileoffset, remain, FILE_STRIPE) == Tiles(start, len, FILE_STRIPE)
      invariant InPlace(msgs, places, start)
    {
      var sendlen := if remain < FILE_STRIPE then remain else FILE_STRIPE;
      TakeTile(msgs, fileoffset, remain, FILE_STRIPE);
      msgs := msgs + [Tile(fileoffset, sendlen)];
      places := places + [bufoffset];
      fileoffset := fileoffset + sendlen;
      bufoffset := bufoffset + sendlen;
      remain := remain - sendlen;
    }
  }

  /** The client's do-while loop for PUT, which counts messages instead of bytes. */
  method ClientPutStripes(filesize: int) returns (msgs: seq<Tile>)
    requires 0 < filesize && MessageCount(filesize).Some?
    ensures msgs == Tiles(0, filesize, FILE_STRIPE)
  {
    StripeCount(filesize);
    var cnt := MessageCount(filesize).value;
    var offset, remain := 0, filesize;
    msgs := [];
    while true
      invariant 0 < remain <= filesize && offset == filesize - remain
      invariant cnt == Pieces(remain, FILE_STRIPE)
      invariant msgs + Tiles(offset, remain, FILE_STRIPE) == Tiles(0, filesize, FILE_STRIPE)
      decreases remain
    {
      var sendlen := if remain < FILE_STRIPE then remain else FILE_STRIPE;
      TakeTile(msgs, offset, remain, FILE_STRIPE);
      msgs := msgs + [Tile(offset, sendlen)];
      offset := offset + sendlen;
      remain := remain - sendlen;
      cnt := cnt - 1;
      if !(cnt > 0) { break; }
    }
  }

  function Positive(x: int): nat { if x > 0 then x else 0 }

  /** The block loop shared by `read_file` and `write_file`; its bound is the source's own assertion. */
  method AioBlocks(size: int, start: int) returns (blocks: seq<Tile>)
    requires 0 <= start && 0 < size && Pieces(size, AIO_STRIPE) < MAX_AIO_SUBMIT
    ensures blocks == Tiles(start, size, AIO_STRIPE)
  {
    BlockCount(size);
    var num := (size + AIO_STRIPE - 1) / AIO_STRIPE;
    var offset, remain := start, size;
    blocks := [];
    for i := 0 to num
      invariant offset >= 0 && num == i + Pieces(Positive(remain), AIO_STRIPE)
      invariant blocks + Tiles(offset, Positive(remain), AIO_STRIPE) == Tiles(start, size, AIO_STRIPE)
    {
      var block := Tile(offset, if AIO_STRIPE < remain then AIO_STRIPE else remain);
      assert Tiles(offset, remain, AIO_STRIPE) ==
             [block] + Tiles(offset + AIO_STRIPE, Positive(remain - AIO_STRIPE), AIO_STRIPE) by {
        if remain <= AIO_STRIPE {
          assert Tiles(offset + remain, 0, AIO_STRIPE) == [];
        }
      }
      blocks := blocks + [block];
      offset := offset + AIO_STRIPE;
      remain := remain - AIO_STRIPE;
    }
  }

  /** A stripe always passes the assertions of `read_file` and `write_file`. */
  lemma StripeFitsAio(base: nat, n: nat, k: nat)
    requires k < |Tiles(base, n, FILE_STRIPE)|
    ensures 0 < Pieces(Tiles(base, n, FILE_STRIPE)[k].len, AIO_STRIPE) < MAX_AIO_SUBMIT
  {
    TilesShape(base, n, FILE_STRIPE);
    BlockCount(Tiles(base, n, FILE_STRIPE)[k].len);
  }

  // ---------------------------------------------------------------- lock conservation

  lemma LockCountExactly(remain: int)
    requires 0 < remain <= INT_MAX
    ensures LockCount(remain) == Some(|Tiles(0, remain, FILE_STRIPE)|) <==> remain <= 0x8000_0000 - FILE_STRIPE
    ensures LockCount(remain).None? <==> remain > 0x8000_0000 - FILE_STRIPE
  {
    StripeCount(remain);
    TilesShape(0, remain, FILE_STRIPE);
  }

  /**
   READ and WRITE: whenever the server takes the lock, the range lies inside the file and
   the units are its stripes; and the client goes on to transfer that very range, if and
   only if its sum does not overflow and the catalogued size fits an `int`.
   */
  lemma ReadWriteConservation(offset: uint32, reqlen: uint32, filesize: uint32)
    requires offset <= INT_MAX && reqlen <= INT_MAX
    requires 0 < ServerRemain(offset, reqlen, filesize) <= 0x8000_0000 - FILE_STRIPE
    ensures var remain := ServerRemain(offset, reqlen, filesize);
            && offset + remain <= filesize
            && LockCount(remain) == Some(|Tiles(offset, remain, FILE_STRIPE)|)
            && (ClientRemain(offset, reqlen, ToInt(filesize)) == Some(remain) <==>
                  offset + reqlen <= INT_MAX && filesize <= INT_MAX)
            && (filesize > INT_MAX ==>
                  forall n :: ClientRemain(offset, reqlen, ToInt(filesize)) == Some(n) ==> n < 0)
  {
    ClampAgreement(offset, reqlen, filesize);
    var remain := ServerRemain(offset, reqlen, filesize);
    StripeCount(remain);
    TilesShape(offset, remain, FILE_STRIPE);
  }

  /**
   PUT and GET: the server prices the lock by the whole size, the PUT client sends that
   many messages and the GET loop submits that many reads; the client's own count
   overflows one size earlier than the server's.
   */
  lemma PutGetConservation(filesize: int)
    requires 0 < filesize <= INT_MAX
    ensures MessageCount(filesize).Some? <==> filesize < 0x8000_0000 - FILE_STRIPE
    ensures filesize <= 0x8000_0000 - FILE_STRIPE ==>
              LockCount(filesize) == Some(|Tiles(0, filesize, FILE_STRIPE)|)
    ensures filesize < 0x8000_0000 - FILE_STRIPE ==> MessageCount(filesize) == LockCount(filesize)
  {
    StripeCount(filesize);
    TilesShape(0, filesize, FILE_STRIPE);
  }
}
