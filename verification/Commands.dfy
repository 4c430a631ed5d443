/**
 The COMMAND half of READ, WRITE, PUT and GET on the server: find or register the file,
 clamp the range, price the lock and take it; and what the DATA half later submits.
 */
module Commands {
  import opened Options
  import opened RwLock
  import opened Stripes
  import opened Catalogue
  import opened FileLocks

  datatype Op = OpRead | OpWrite | OpPut | OpGet

  /**
   `Overflow` stands for the sizes at which the lock count overflows an `int`; `filesize` is
   what the reply says of the size, and PUT leaves it zero.
   */
  datatype Answer = NoFile | Unknown | Overflow | Locked(fidx: nat, cnt: nat, read: bool, filesize: uint32)

  datatype Request = Request(op: Op, fi: FileInfo, offset: uint32, reqlen: uint32)

  predicate Reads(op: Op) { op == OpRead || op == OpGet }

  /** The number of bytes the server is going to transfer for a request on a file of `filesize` bytes. */
  function Remain(r: Request, filesize: uint32): int {
    match r.op
    case OpRead => ServerRemain(r.offset, r.reqlen, filesize)
    case OpWrite => ServerRemain(r.offset, r.reqlen, filesize)
    case OpPut => ToInt(r.fi.filesize)
    case OpGet => ToInt(filesize)
  }

  /** The answer for a file that has been found at `fidx`. */
  function Priced(r: Request, fidx: nat, filesize: uint32): Answer {
    var remain := Remain(r, filesize);
    if remain <= 0 then NoFile
    else match LockCount(remain)
         case None => Overflow
         case Some(cnt) => Locked(fidx, cnt, Reads(r.op), ReplySize(r.op, filesize))
  }

  function ReplySize(op: Op, filesize: uint32): uint32 { if op == OpPut then 0 else filesize }

  /** The catalogue after the command and the answer; only PUT registers a new name. */
  function Answered(cat: seq<FileInfo>, r: Request): (seq<FileInfo>, Answer)
    requires Well(cat)
  {
    LookupKeeps(cat, r.fi, r.op == OpPut);
    var (after, i) := Lookup(cat, r.fi, r.op == OpPut);
    if i < 0 then (after, if r.op == OpPut then Unknown else NoFile)
    else (after, Priced(r, i, after[i].filesize))
  }

  /** Offset and length come from `int` variables that the client has found not to be negative. */
  predicate FromClient(r: Request) {
    r.op == OpRead || r.op == OpWrite ==> r.offset <= INT_MAX && r.reqlen <= INT_MAX
  }

  /**
   The stripes submitted after the reply `filesize` of the command: for READ and GET the
   server's reads over the range the client asks for, for WRITE and PUT the client's
   messages, one write each.  `None` where an `int` of the client overflows.
   */
  function Submitted(r: Request, filesize: uint32): Option<seq<Tile>> {
    match r.op
    case OpRead => RangeStripes(r.offset, ClientRemain(r.offset, r.reqlen, ToInt(filesize)))
    case OpWrite => RangeStripes(r.offset, ClientRemain(r.offset, r.reqlen, ToInt(filesize)))
    case OpPut =>
      if MessageCount(ToInt(r.fi.filesize)).None? then None else RangeStripes(0, Some(ToInt(r.fi.filesize)))
    case OpGet => RangeStripes(0, Some(ToInt(filesize)))
  }

  function RangeStripes(offset: nat, remain: Option<int>): Option<seq<Tile>> {
    match remain
    case None => None
    case Some(n) => Some(if n <= 0 then [] else Tiles(offset, n, FILE_STRIPE))
  }

  /**
   What a caller can check before the call, given the size `filesize` catalogued for the
   file: READ and WRITE need it and the end of their range to fit an `int`, PUT a size whose
   stripes the client can count.
   */
  predicate Conserving(r: Request, filesize: uint32) {
    match r.op
    case OpRead => r.offset + r.reqlen <= INT_MAX && filesize <= INT_MAX
    case OpWrite => r.offset + r.reqlen <= INT_MAX && filesize <= INT_MAX
    case OpPut => r.fi.filesize < 0x8000_0000 - FILE_STRIPE
    case OpGet => true
  }

  /** The stripes submitted are as many as the units of `a`. */
  predicate Conserves(r: Request, a: Answer)
    requires a.Locked?
  {
    var ts := Submitted(r, a.filesize);
    ts.Some? && |ts.value| == a.cnt
  }

  /**
   End-to-end conservation, for every command from a client that takes the lock: the units
   it takes are the stripes submitted afterwards, on whichever side the loop runs, if and
   only if the command is conserving; for READ, WRITE and GET these then lie inside the file.
   */
  lemma UnitsAreStripes(cat: seq<FileInfo>, r: Request)
    requires Well(cat) && FromClient(r) && Answered(cat, r).1.Locked?
    ensures var a := Answered(cat, r).1;
            && a.cnt > 0
            && (Conserves(r, a) <==> Conserving(r, a.filesize))
            && (Conserves(r, a) && r.op != OpPut ==>
                  forall t | t in Submitted(r, a.filesize).value :: t.off + t.len <= a.filesize)
  {
    var a := Answered(cat, r).1;
    var remain := Remain(r, a.filesize);
    LockCountExactly(remain);
    match r.op
    case OpRead => RangeConserves(r, a.filesize, a.cnt);
    case OpWrite => RangeConserves(r, a.filesize, a.cnt);
    case OpPut =>
      PutGetConservation(remain);
    case OpGet =>
      TilesShape(0, remain, FILE_STRIPE);
  }

  lemma RangeConserves(r: Request, filesize: uint32, cnt: nat)
    requires (r.op == OpRead || r.op == OpWrite) && FromClient(r)
    requires 0 < Remain(r, filesize) && LockCount(Remain(r, filesize)) == Some(cnt)
    ensures var ts := Submitted(r, filesize);
            && (ts.Some? && |ts.value| == cnt <==> Conserving(r, filesize))
            && (Conserving(r, filesize) ==> forall t | t in ts.value :: t.off + t.len <= filesize)
  {
    var remain := Remain(r, filesize);
    LockCountExactly(remain);
    ReadWriteConservation(r.offset, r.reqlen, filesize);
    TilesShape(r.offset, remain, FILE_STRIPE);
  }

  /**
   The case in which it fails: PUT of a file of 3 GiB is refused but leaves the size
   catalogued, a READ of its first byte takes one unit because the server compares unsigned,
   and the client sees a negative size and asks for nothing, so the unit never comes back.
   */
  lemma ConservationCanFail(name: string, owner: string)
    ensures var fi := FileInfo(0xC000_0000, name, owner);
            var put, read := Request(OpPut, fi, 0, 0), Request(OpRead, fi, 0, 1);
            && Answered([], put) == ([fi], NoFile)
            && FromClient(read)
            && Answered([fi], read) == ([fi], Locked(0, 1, true, 0xC000_0000))
            && Submitted(read, 0xC000_0000) == Some([])
  {
    var fi := FileInfo(0xC000_0000, name, owner);
    var put, read := Request(OpPut, fi, 0, 0), Request(OpRead, fi, 0, 1);
    EmptyPutStillRegisters([], put);
    assert [] + [fi] == [fi];
    OnlyFinds([fi], read);
    assert Find([fi], name) == 0;
    assert Priced(read, 0, 0xC000_0000) == Locked(0, 1, true, 0xC000_0000);
    assert ClientRemain(0, 1, ToInt(0xC000_0000)) == Some(-0x4000_0000);
  }

  /**
   When READ and WRITE get the lock: exactly if the file is catalogued and the range meets
   it in at least one byte and in no more bytes than the lock count can express.
   */
  lemma LockedExactly(cat: seq<FileInfo>, r: Request)
    requires Well(cat) && FromClient(r) && (r.op == OpRead || r.op == OpWrite)
    ensures var i := Find(cat, r.fi.filename);
            Answered(cat, r).1.Locked? <==>
            && i < |cat| && r.offset < cat[i].filesize && r.reqlen > 0
            && Min(r.reqlen, cat[i].filesize - r.offset) <= 0x8000_0000 - FILE_STRIPE
    ensures Answered(cat, r).0 == cat
  {
    var i := Find(cat, r.fi.filename);
    OnlyFinds(cat, r);
    if i < |cat| {
      PricedExactly(r, i, cat[i].filesize);
    }
  }

  lemma OnlyFinds(cat: seq<FileInfo>, r: Request)
    requires Well(cat) && r.op != OpPut
    ensures var i := Find(cat, r.fi.filename);
            Answered(cat, r) == (cat, if i < |cat| then Priced(r, i, cat[i].filesize) else NoFile)
  {
  }

  lemma PricedExactly(r: Request, fidx: nat, filesize: uint32)
    requires FromClient(r) && (r.op == OpRead || r.op == OpWrite)
    ensures Priced(r, fidx, filesize).Locked? <==>
            && r.offset < filesize && r.reqlen > 0
            && Min(r.reqlen, filesize - r.offset) <= 0x8000_0000 - FILE_STRIPE
  {
    ClampAgreement(r.offset, r.reqlen, filesize);
    var remain := ServerRemain(r.offset, r.reqlen, filesize);
    assert Remain(r, filesize) == remain;
    if 0 < remain { LockCountExactly(remain); }
  }

  // ---------------------------------------------------------------- what a command does, outright

  /** The bytes a command is about, if its file is catalogued with `size` bytes. */
  function Wanted(r: Request, size: uint32): nat {
    match r.op
    case OpRead => if r.offset < size then Min(r.reqlen, size - r.offset) else 0
    case OpWrite => if r.offset < size then Min(r.reqlen, size - r.offset) else 0
    case OpPut => if r.fi.filesize < 0x8000_0000 then r.fi.filesize else 0
    case OpGet => if size < 0x8000_0000 then size else 0
  }

  /** The answer for `n` bytes of entry `i`: units enough, and not one too many. */
  predicate Answers(a: Answer, i: nat, n: nat, read: bool, filesize: uint32) {
    if n == 0 then a == NoFile
    else if n > 0x7FF0_0000 then a == Overflow
    else a.Locked? && a == Locked(i, a.cnt, read, filesize) && (a.cnt - 1) * 0x10_0000 < n <= a.cnt * 0x10_0000
  }

  /**
   The catalogue and the answer after a command: PUT adds a new name unless 999 are there,
   the others add nothing; a name that is not there is refused; READ and GET ask for the
   lock as readers, WRITE and PUT as writers.
   */
  predicate AnswersAs(cat: seq<FileInfo>, r: Request, after: seq<FileInfo>, a: Answer) {
    var i := Find(cat, r.fi.filename);
    if i < |cat| then
      && after == cat
      && Answers(a, i, Wanted(r, cat[i].filesize), r.op == OpRead || r.op == OpGet,
                 if r.op == OpPut then 0 else cat[i].filesize)
    else if r.op != OpPut then after == cat && a == NoFile
    else if |cat| >= 999 then after == cat && a == Unknown
    else after == cat + [r.fi] && Answers(a, |cat|, Wanted(r, 0), false, 0)
  }

  /** Acceptance and every refusal of the four commands, for all catalogues and client requests. */
  lemma AnswerExactly(cat: seq<FileInfo>, r: Request)
    requires Well(cat) && FromClient(r)
    ensures AnswersAs(cat, r, Answered(cat, r).0, Answered(cat, r).1)
  {
    var i := Find(cat, r.fi.filename);
    LookupKeeps(cat, r.fi, r.op == OpPut);
    if i < |cat| {
      PricedIs(r, i, cat[i].filesize);
    } else if r.op == OpPut && |cat| < MAX_FILE - 1 {
      PricedIs(r, i, r.fi.filesize);
    }
  }

  lemma PricedIs(r: Request, i: nat, size: uint32)
    requires FromClient(r)
    ensures Answers(Priced(r, i, size), i, Wanted(r, size), r.op == OpRead || r.op == OpGet,
                    if r.op == OpPut then 0 else size)
  {
    var remain := Remain(r, size);
    if r.op == OpRead || r.op == OpWrite {
      ClampAgreement(r.offset, r.reqlen, size);
    }
    assert Wanted(r, size) == if remain > 0 then remain else 0;
    if 0 < remain {
      LockCountExactly(remain);
      if LockCount(remain).Some? { UnitsSuffice(remain); }
    }
  }

  lemma UnitsSuffice(remain: int)
    requires 0 < remain && LockCount(remain).Some?
    ensures var cnt := LockCount(remain).value; (cnt - 1) * 0x10_0000 < remain <= cnt * 0x10_0000
  {
  }

  /**
   What is submitted for a command about at least one byte of a file of `size` bytes: the
   stripes of exactly these bytes; nothing, if the client finds the size negative; and
   something undefined, if an `int` of the client overflows.
   */
  lemma SubmittedExactly(r: Request, size: uint32)
    requires FromClient(r) && Wanted(r, size) > 0
    ensures var start := if r.op == OpRead || r.op == OpWrite then r.offset else 0;
            var n := Wanted(r, size);
            Submitted(r, size) ==
            if (r.op == OpRead || r.op == OpWrite) && start + r.reqlen >= 0x8000_0000 then None
            else if (r.op == OpRead || r.op == OpWrite) && size >= 0x8000_0000 then
              if size - start < 0x8000_0000 then None else Some([])
            else if r.op == OpPut && n >= 0x7FF0_0000 then None
            else Some(Tiles(start, n, 0x10_0000))
  {
    if r.op == OpRead || r.op == OpWrite {
      ClientClampExactly(r.offset, r.reqlen, ToInt(size));
    }
  }

  /** The lock of entry `k` before the command; a new entry comes with a free one. */
  function LockBefore(ls: seq<Lock>, k: nat): Lock { if k < |ls| then ls[k] else Lock(0, 0, []) }

  /** `l` after a request for `cnt` units: behind the queue if anything is in the way, else at once. */
  predicate Requested(l: Lock, now: Lock, read: bool, cnt: nat, outcome: FileLocks.Outcome) {
    if l.wcnt > 0 || (!read && l.rcnt > 0) || l.queue != [] then
      outcome == Asleep && now == Lock(l.rcnt, l.wcnt, l.queue + [Job(read, cnt)])
    else
      && outcome == Granted
      && now == if read then Lock(l.rcnt + cnt, l.wcnt, []) else Lock(l.rcnt, cnt, [])
  }

  /** The locks and the outcome after a command that was answered with `a`. */
  predicate LocksAs(r: Request, ls: seq<Lock>, now: seq<Lock>, a: Answer, outcome: FileLocks.Outcome) {
    && |ls| <= |now|
    && (forall k | 0 <= k < |now| && !(a.Locked? && k == a.fidx) :: now[k] == LockBefore(ls, k))
    && if a.Locked? then
         && a.fidx < |now|
         && Requested(LockBefore(ls, a.fidx), now[a.fidx], r.op == OpRead || r.op == OpGet, a.cnt, outcome)
       else outcome == Refused
  }

  /**
   What a command does to the locks, for every request and every state of them: READ and GET
   take the entry's lock as readers, WRITE and PUT as writers, at once or behind the queue,
   and no other lock changes.
   */
  lemma LocksExactly(cat: seq<FileInfo>, ls: seq<Lock>, r: Request)
    requires Well(cat) && |ls| == |cat|
    ensures var (after, a) := Answered(cat, r);
            var before := LocksWith(ls, |cat|, |after|);
            |after| == |before| && LocksAs(r, ls, AfterAnswer(before, a), a, OutcomeOf(before, a))
  {
    LookupKeeps(cat, r.fi, r.op == OpPut);
    AddsOneAtMost(cat, r.fi, r.op == OpPut);
    var (after, a) := Answered(cat, r);
    assert a.Locked? ==> a.fidx < |after| && a.read == (r.op == OpRead || r.op == OpGet);
  }

  /** A PUT of an empty file is refused, but the name it introduced stays catalogued. */
  lemma EmptyPutStillRegisters(cat: seq<FileInfo>, r: Request)
    requires Well(cat) && r.op == OpPut && ToInt(r.fi.filesize) <= 0
    requires Find(cat, r.fi.filename) == |cat| < MAX_FILE - 1
    ensures Answered(cat, r) == (cat + [r.fi], NoFile)
  {
  }

  /** The name is new to the catalogue, or catalogued with this very size. */
  predicate SizeKept(cat: seq<FileInfo>, fi: FileInfo) {
    var i := Find(cat, fi.filename);
    i == |cat| || cat[i].filesize == fi.filesize
  }

  /**
   After a PUT that took the lock, and any further history of the catalogue, a GET of that
   name is about the same entry; it is granted the size that was put if and only if the name
   was new or catalogued with that size.
   */
  lemma GetSizeExactly(cat: seq<FileInfo>, put: Request, calls: seq<Call>, get: Request)
    requires Well(cat) && put.op == OpPut && get.op == OpGet && put.fi.filename == get.fi.filename
    requires Answered(cat, put).1.Locked?
    ensures var end := History(Answered(cat, put).0, calls);
            && Well(end)
            && var a, b := Answered(cat, put).1, Answered(end, get).1;
               && (b.Locked? ==> b.fidx == a.fidx)
               && (b.Locked? && b.filesize == put.fi.filesize <==> SizeKept(cat, put.fi))
               && (SizeKept(cat, put.fi) ==> b == Locked(a.fidx, a.cnt, true, put.fi.filesize))
  {
    LookupKeeps(cat, put.fi, true);
    var (after, i) := Lookup(cat, put.fi, true);
    AppendOnly(after, calls);
    IndexIsStable(cat, put.fi, true, calls, get.fi, false);
    var end := History(after, calls);
    assert Lookup(end, get.fi, false) == (end, i);
    assert end[i].filesize == if Find(cat, put.fi.filename) < |cat| then cat[i].filesize else put.fi.filesize;
  }

  /** The catalogue together with the locks of its files. */
  class FileServer {
    const list: FileList
    const table: FileTable

    ghost predicate Valid()
      reads this, list, list.filearr, table, table.files, table.Waiters()
    {
      list.Valid() && table.Valid() && |table.files| == list.cnt
    }

    constructor (list: FileList, table: FileTable)
      requires list.Valid() && table.Valid() && |table.files| == list.cnt
      ensures Valid() && this.list == list && this.table == table
    {
      this.list := list;
      this.table := table;
    }

    /** Search-or-add, with a lock for a new file. */
    method Register(fi: FileInfo, add: bool) returns (i: int)
      requires Valid()
      modifies list, list.filearr, table
      ensures Valid() && list.filearr == old(list.filearr)
      ensures (list.Infos(), i) == Lookup(old(list.Infos()), fi, add)
      ensures table.Abs() == LocksWith(old(table.Abs()), old(list.cnt), list.cnt)
      ensures forall k | 0 <= k < |table.files| :: table.files[k] in old(table.files) || fresh(table.files[k])
      ensures table.Waiters() == old(table.Waiters())
    {
      var cnt := list.cnt;
      i := list.GetFileIndex(fi, add);
      AddsOneAtMost(old(list.Infos()), fi, add);
      assert |list.Infos()| == list.cnt;
      if list.cnt > cnt {
        AddLock();
      }
    }

    /** A free lock for the entry that has just been added. */
    method AddLock()
      requires table.Valid()
      modifies table
      ensures table.Valid() && table.Abs() == old(table.Abs()) + [FREE] && table.Waiters() == old(table.Waiters())
      ensures |table.files| == |old(table.files)| + 1
      ensures forall k | 0 <= k < |table.files| :: table.files[k] in old(table.files) || fresh(table.files[k])
    {
      table.AddFile();
    }

    /** `wait_lock` for a catalogued file. */
    method Lock(i: nat, cnt: nat, read: bool) returns (outcome: FileLocks.Outcome)
      requires Valid() && i < list.cnt
      modifies table.files, table.Waiters()
      ensures Valid() && list.Infos() == old(list.Infos()) && table.files == old(table.files)
      ensures table.Abs() == old(table.Abs())[i := RwLock.Request(old(table.Abs())[i], Job(read, cnt))]
      ensures outcome == if MustWait(old(table.Abs())[i], Job(read, cnt)) then Asleep else Granted
    {
      outcome := table.WaitLock(i, cnt, read);
    }

    /** Clamping, pricing and locking, for a file that has been found. */
    method Settle(r: Request, i: nat) returns (a: Answer, outcome: FileLocks.Outcome)
      requires Valid() && i < list.cnt
      modifies table.files, table.Waiters()
      ensures Valid() && list.Infos() == old(list.Infos()) && a == Priced(r, i, list.Infos()[i].filesize)
      ensures table.files == old(table.files)
      ensures table.Abs() == AfterAnswer(old(table.Abs()), a)
      ensures outcome == OutcomeOf(old(table.Abs()), a)
    {
      var meta := list.GetFileMeta(i);
      var remain := Remain(r, meta.value.fi.filesize);
      if remain <= 0 {
        return NoFile, Refused;
      }
      var cnt := LockCount(remain);
      if cnt.None? {
        return Overflow, Refused;
      }
      a := Locked(i, cnt.value, Reads(r.op), ReplySize(r.op, meta.value.fi.filesize));
      outcome := Lock(i, cnt.value, Reads(r.op));
    }

    /** `read_proc`, `write_proc`, `put_proc` and `get_proc` on a command message. */
    method Command(r: Request) returns (a: Answer, outcome: FileLocks.Outcome)
      requires Valid()
      modifies list, list.filearr, table, table.files, table.Waiters()
      ensures Valid()
      ensures (list.Infos(), a) == Answered(old(list.Infos()), r)
      ensures table.Abs() == AfterAnswer(LocksWith(old(table.Abs()), old(list.cnt), list.cnt), a)
      ensures outcome == OutcomeOf(LocksWith(old(table.Abs()), old(list.cnt), list.cnt), a)
      ensures FromClient(r) ==> AnswersAs(old(list.Infos()), r, list.Infos(), a)
      ensures LocksAs(r, old(table.Abs()), table.Abs(), a, outcome)
    {
      LocksExactly(list.Infos(), table.Abs(), r);
      if FromClient(r) { AnswerExactly(list.Infos(), r); }
      var i := Register(r.fi, r.op == OpPut);
      if i < 0 {
        return if r.op == OpPut then Unknown else NoFile, Refused;
      }
      a, outcome := Settle(r, i);
    }
  }

  lemma AddsOneAtMost(cat: seq<FileInfo>, fi: FileInfo, add: bool)
    ensures |cat| <= |Lookup(cat, fi, add).0| <= |cat| + 1
  {
  }

  /** The locks once the catalogue has `after` entries: a new entry has a free one. */
  function LocksWith(ls: seq<Lock>, before: int, after: int): seq<Lock> {
    ls + if after > before then [FREE] else []
  }

  /** A command that is answered with a lock has requested it; no other lock changes. */
  function AfterAnswer(ls: seq<Lock>, a: Answer): seq<Lock> {
    if a.Locked? && a.fidx < |ls| then ls[a.fidx := RwLock.Request(ls[a.fidx], Job(a.read, a.cnt))] else ls
  }

  /** Whether the command holds the lock at once, sleeps, or has not asked for it. */
  function OutcomeOf(ls: seq<Lock>, a: Answer): FileLocks.Outcome {
    if !a.Locked? || a.fidx >= |ls| then Refused
    else if MustWait(ls[a.fidx], Job(a.read, a.cnt)) then Asleep
    else Granted
  }
}
