/**
 A whole PUT and a whole GET by one client at a time: command, lock, transfer and release.
 Files change in place; catalogue and locks are the values that `FileServer` and `FileTable`
 keep in memory.
 */
module Sessions {
  import opened Options
  import opened Bytes
  import opened RwLock
  import opened Stripes
  import opened Catalogue
  import opened FileLocks
  import opened Commands
  import Transfer

  /** `n` completed operations of one kind on one file. */
  function Copies(n: nat, e: Completion): (es: seq<Completion>)
    ensures |es| == n && forall i | 0 <= i < n :: es[i] == e
  {
    seq(n, _ => e)
  }

  /** Each completion gives back one of the units, and as many as there were leave the lock free. */
  lemma {:induction false} GivenBack(ls: seq<Lock>, fidx: nat, job: Job, es: seq<Completion>)
    requires fidx < |ls| && ls[fidx] == Take(FREE, job) && |es| <= job.cnt
    requires forall i | 0 <= i < |es| :: es[i] == Completion(fidx, job.read)
    ensures Completed(ls, es) == ls[fidx := Take(FREE, job.(cnt := job.cnt - |es|))]
    decreases |es|
  {
    var n := |es|;
    if n == 0 {
      assert ls[fidx := ls[fidx]] == ls;
    } else {
      GivenBack(ls, fidx, job, es[..n - 1]);
      var left := job.(cnt := job.cnt - (n - 1));
      ReleaseOne(left);
      SetTwice(ls, fidx, Take(FREE, left), Release(Take(FREE, left), job.read));
    }
  }

  lemma SetTwice<T>(s: seq<T>, i: nat, x: T, y: T)
    requires i < |s|
    ensures s[i := x][i := y] == s[i := y] && s[i := x][i] == x
  {
  }

  lemma ReleaseOne(job: Job)
    requires job.cnt > 0
    ensures Release(Take(FREE, job), job.read) == Take(FREE, job.(cnt := job.cnt - 1))
  {
  }

  /** The lock of the named file, if it is catalogued, is free. */
  predicate FreeFor(cat: seq<FileInfo>, ls: seq<Lock>, name: string) {
    var i := Find(cat, name);
    i < |cat| == |ls| ==> ls[i] == FREE
  }

  /** A found file whose lock is free is locked at once, and free again after as many completions. */
  lemma LockedAndGivenBack(ls: seq<Lock>, a: Answer, n: nat)
    requires a.Locked? && a.fidx < |ls| && ls[a.fidx] == FREE && n == a.cnt
    ensures OutcomeOf(ls, a) == Granted
    ensures Completed(AfterAnswer(ls, a), Copies(n, Completion(a.fidx, a.read))) == ls
  {
    GivenBack(AfterAnswer(ls, a), a.fidx, Job(a.read, a.cnt), Copies(n, Completion(a.fidx, a.read)));
    assert ls[a.fidx := FREE] == ls;
  }

  /** The entry that a command is answered with is the one of its name, or a new one. */
  lemma AnsweredEntry(cat: seq<FileInfo>, ls: seq<Lock>, r: Request)
    requires Well(cat) && |ls| == |cat| && FreeFor(cat, ls, r.fi.filename) && Answered(cat, r).1.Locked?
    ensures var (after, a) := Answered(cat, r);
            var now := LocksWith(ls, |cat|, |after|);
            a.fidx < |now| == |after| && now[a.fidx] == FREE
  {
    LookupKeeps(cat, r.fi, r.op == OpPut);
  }

  /** PUT and GET take one unit for each stripe of the whole file. */
  lemma UnitsOfWholeFile(cat: seq<FileInfo>, r: Request)
    requires Well(cat) && (r.op == OpPut || r.op == OpGet) && Answered(cat, r).1.Locked?
    ensures var a := Answered(cat, r).1;
            var size := if r.op == OpPut then r.fi.filesize else a.filesize;
            0 < size <= INT_MAX && a.cnt == Pieces(size, FILE_STRIPE) && a.read == (r.op == OpGet)
  {
    var a := Answered(cat, r).1;
    var remain := Remain(r, a.filesize);
    LockCountExactly(remain);
    TilesShape(0, remain, FILE_STRIPE);
  }

  /** What the server keeps in memory: the catalogue and a lock for each entry. */
  datatype Memory = Memory(cat: seq<FileInfo>, ls: seq<Lock>)

  predicate Sound(m: Memory) { Well(m.cat) && |m.ls| == |m.cat| }

  /** The memory after the command half of `r`, as `FileServer.Command` leaves it. */
  function Commanded(m: Memory, r: Request): Memory
    requires Sound(m)
  {
    var (after, a) := Answered(m.cat, r);
    Memory(after, AfterAnswer(LocksWith(m.ls, |m.cat|, |after|), a))
  }

  /** The memory after the command and all completions of a transfer: only the catalogue may have grown. */
  function Served(m: Memory, r: Request): Memory
    requires Sound(m)
  {
    var after := Answered(m.cat, r).0;
    Memory(after, LocksWith(m.ls, |m.cat|, |after|))
  }

  /** The completions that a client causes give back all that its command took, at once. */
  lemma AllGivenBack(m: Memory, r: Request, n: nat)
    requires Sound(m) && FreeFor(m.cat, m.ls, r.fi.filename)
    ensures Sound(Served(m, r)) && FreeFor(Served(m, r).cat, Served(m, r).ls, r.fi.filename)
    ensures var a := Answered(m.cat, r).1;
            if a.Locked? then
              && OutcomeOf(Served(m, r).ls, a) == Granted
              && (n == a.cnt ==>
                    Completed(Commanded(m, r).ls, Copies(n, Completion(a.fidx, a.read))) == Served(m, r).ls)
            else Commanded(m, r) == Served(m, r)
  {
    var a := Answered(m.cat, r).1;
    AppendOnlyOnce(m, r);
    StillFree(m.cat, m.ls, r);
    if a.Locked? {
      AnsweredEntry(m.cat, m.ls, r);
      LockedAndGivenBack(Served(m, r).ls, a, a.cnt);
    }
  }

  lemma AppendOnlyOnce(m: Memory, r: Request)
    requires Sound(m)
    ensures Sound(Served(m, r))
  {
    LookupKeeps(m.cat, r.fi, r.op == OpPut);
    AddsOneAtMost(m.cat, r.fi, r.op == OpPut);
  }

  /**
   A PUT by a client whose file has the size in the command: either it is refused and no
   byte moves, or its bytes are in front of the server's file and every unit it took has
   been given back.
   */
  method PutFile(m: Memory, disk: DiskFile, local: DiskFile, put: Request) returns (after: Memory, a: Answer)
    requires Sound(m) && FreeFor(m.cat, m.ls, put.fi.filename)
    requires put.op == OpPut && put.fi.filesize == |local.bytes| && local != disk
    requires MessageCount(ToInt(put.fi.filesize)).Some?
    modifies disk
    ensures after == Served(m, put) && a == Answered(m.cat, put).1
    ensures disk.bytes == if a.Locked? then PWrite(old(disk.bytes), 0, local.bytes) else old(disk.bytes)
  {
    a := Answered(m.cat, put).1;
    after := Commanded(m, put);
    AllGivenBack(m, put, if a.Locked? then a.cnt else 0);
    if a.Locked? {
      UnitsOfWholeFile(m.cat, put);
      var sent := PutAll(local, disk, put.fi.filesize);
      after := after.(ls := Completed(after.ls, Copies(sent, Completion(a.fidx, a.read))));
    }
  }

  /** The data half of PUT. */
  method PutAll(local: DiskFile, disk: DiskFile, size: nat) returns (sent: nat)
    requires 0 < size == |local.bytes| && MessageCount(size).Some? && local != disk
    modifies disk
    ensures sent == Pieces(size, FILE_STRIPE)
    ensures disk.bytes == PWrite(old(disk.bytes), 0, local.bytes)
  {
    sent := Transfer.Put(local, disk, size);
    assert local.bytes[..|local.bytes|] == local.bytes;
  }

  /**
   A GET: either it is refused and no byte moves, or the local file holds the server's bytes
   of the catalogued size in front, and every unit it took has been given back.  `memory` is
   what the reply buffers hold before the reads.
   */
  method GetFile(m: Memory, disk: DiskFile, dest: DiskFile, get: Request, memory: nat -> byte)
    returns (after: Memory, a: Answer)
    requires Sound(m) && FreeFor(m.cat, m.ls, get.fi.filename) && get.op == OpGet && dest != disk
    modifies dest
    ensures after == m && a == Answered(m.cat, get).1
    ensures dest.bytes == if a.Locked? then Fetched(old(dest.bytes), disk.bytes, a.filesize, memory)
                          else old(dest.bytes)
  {
    a := Answered(m.cat, get).1;
    after := Commanded(m, get);
    NothingAdded(m.cat, m.ls, get);
    AllGivenBack(m, get, if a.Locked? then a.cnt else 0);
    if a.Locked? {
      UnitsOfWholeFile(m.cat, get);
      var used := Fetch(disk, dest, a.filesize, memory);
      after := after.(ls := Completed(after.ls, Copies(used, Completion(a.fidx, a.read))));
    }
  }

  /**
   A WRITE of `buf`: refused, and no byte moves; or the part of it that lies in the file is
   written, and every unit it took has been given back; or, if the catalogued size does not
   fit an `int`, abandoned by the client, and no byte moves while the units stay taken.
   */
  method WriteFile(m: Memory, disk: DiskFile, buf: seq<byte>, r: Request) returns (after: Memory, a: Answer)
    requires Sound(m) && FreeFor(m.cat, m.ls, r.fi.filename)
    requires r.op == OpWrite && FromClient(r) && r.reqlen == |buf| && r.offset + r.reqlen <= INT_MAX
    modifies disk
    ensures a == Answered(m.cat, r).1
    ensures a.Locked? && a.filesize <= INT_MAX ==>
              && after == Served(m, r)
              && disk.bytes == PWrite(old(disk.bytes), r.offset, buf[..Wanted(r, a.filesize)])
    ensures a.Locked? && a.filesize > INT_MAX ==> after == Commanded(m, r) && disk.bytes == old(disk.bytes)
    ensures !a.Locked? ==> after == m && disk.bytes == old(disk.bytes)
  {
    a := Answered(m.cat, r).1;
    after := Commanded(m, r);
    NothingAdded(m.cat, m.ls, r);
    AllGivenBack(m, r, if a.Locked? then a.cnt else 0);
    if a.Locked? {
      ClientGoesOn(m.cat, r);
      var remain := ClientRemain(r.offset, r.reqlen, ToInt(a.filesize));
      if remain.Some? && remain.value > 0 {
        var sent := Transfer.WriteRange(disk, buf, r.offset, remain.value);
        after := after.(ls := Completed(after.ls, Copies(sent, Completion(a.fidx, a.read))));
      }
    }
  }

  /**
   A READ into `buf`, likewise: refused, served with the file's bytes of the range in front of
   the buffer and every unit given back, or abandoned with the units taken.
   */
  method ReadFile(m: Memory, disk: DiskFile, buf: array<byte>, r: Request, memory: nat -> byte)
    returns (after: Memory, a: Answer)
    requires Sound(m) && FreeFor(m.cat, m.ls, r.fi.filename)
    requires r.op == OpRead && FromClient(r) && r.reqlen <= buf.Length && r.offset + r.reqlen <= INT_MAX
    modifies buf
    ensures a == Answered(m.cat, r).1
    ensures a.Locked? && a.filesize <= INT_MAX ==>
              && after == Served(m, r)
              && buf[..] == ReadInto(old(buf[..]), disk.bytes, r.offset, Wanted(r, a.filesize), memory)
    ensures a.Locked? && a.filesize > INT_MAX ==> after == Commanded(m, r) && buf[..] == old(buf[..])
    ensures !a.Locked? ==> after == m && buf[..] == old(buf[..])
  {
    a := Answered(m.cat, r).1;
    after := Commanded(m, r);
    NothingAdded(m.cat, m.ls, r);
    AllGivenBack(m, r, if a.Locked? then a.cnt else 0);
    if a.Locked? {
      ClientGoesOn(m.cat, r);
      var remain := ClientRemain(r.offset, r.reqlen, ToInt(a.filesize));
      if remain.Some? && remain.value > 0 {
        var used := FetchRange(disk, buf, r.offset, remain.value, memory);
        after := after.(ls := Completed(after.ls, Copies(used, Completion(a.fidx, a.read))));
      }
    }
  }

  /** The buffer after a READ of `n` bytes at `start`. */
  function ReadInto(was: seq<byte>, file: seq<byte>, start: nat, n: nat, memory: nat -> byte): seq<byte> {
    PWrite(was, 0, Transfer.Seen(file, start, seq(n, i requires 0 <= i < n => memory(i)))[start..start + n])
  }

  /** The data half of READ. */
  method FetchRange(disk: DiskFile, buf: array<byte>, start: nat, n: int, memory: nat -> byte) returns (used: nat)
    requires 0 < n <= buf.Length && start + n <= INT_MAX
    modifies buf
    ensures used == Pieces(n, FILE_STRIPE)
    ensures buf[..] == ReadInto(old(buf[..]), disk.bytes, start, n, memory)
  {
    used := Transfer.ReadRange(disk, buf, start, n, seq(n, i requires 0 <= i < n => memory(i)));
  }

  /** A READ inside the file as it is on disk gets exactly its bytes. */
  lemma ReadInside(was: seq<byte>, file: seq<byte>, start: nat, n: nat, memory: nat -> byte)
    requires start + n <= |file|
    ensures ReadInto(was, file, start, n, memory) == PWrite(was, 0, file[start..start + n])
  {
  }

  /** The client transfers what the command is about, one stripe a unit, unless it finds the size negative. */
  lemma ClientGoesOn(cat: seq<FileInfo>, r: Request)
    requires Well(cat) && (r.op == OpRead || r.op == OpWrite) && FromClient(r) && r.offset + r.reqlen <= INT_MAX
    requires Answered(cat, r).1.Locked?
    ensures var a := Answered(cat, r).1;
            var remain := ClientRemain(r.offset, r.reqlen, ToInt(a.filesize));
            if a.filesize <= INT_MAX then
              && remain == Some(Wanted(r, a.filesize)) && remain.value > 0
              && a.cnt == Pieces(remain.value, FILE_STRIPE)
            else remain.Some? ==> remain.value < 0
  {
    var a := Answered(cat, r).1;
    AnswerExactly(cat, r);
    OnlyFinds(cat, r);
    var n := Remain(r, a.filesize);
    LockCountExactly(n);
    ReadWriteConservation(r.offset, r.reqlen, a.filesize);
    ClientClampExactly(r.offset, r.reqlen, ToInt(a.filesize));
    TilesShape(0, n, FILE_STRIPE);
  }

  lemma NothingAdded(cat: seq<FileInfo>, ls: seq<Lock>, get: Request)
    requires Well(cat) && get.op != OpPut
    ensures Answered(cat, get).0 == cat && LocksWith(ls, |cat|, |cat|) == ls
  {
    OnlyFinds(cat, get);
    assert ls + [] == ls;
  }

  /** The local file after a GET of `size` bytes. */
  function Fetched(was: seq<byte>, file: seq<byte>, size: nat, memory: nat -> byte): seq<byte> {
    PWrite(was, 0, Transfer.Seen(file, 0, seq(size, i requires 0 <= i < size => memory(i)))[0..size])
  }

  /** The data half of GET, on the server and on the client. */
  method Fetch(disk: DiskFile, dest: DiskFile, size: nat, memory: nat -> byte) returns (used: nat)
    requires disk != dest && 0 < size <= INT_MAX
    modifies dest
    ensures used == Pieces(size, FILE_STRIPE)
    ensures dest.bytes == Fetched(old(dest.bytes), disk.bytes, size, memory)
  {
    var buffers := seq(size, i requires 0 <= i < size => memory(i));
    var replies := Transfer.ServerRead(disk, 0, size, buffers);
    used := Transfer.ReceiveGet(dest, replies, size, Transfer.Seen(disk.bytes, 0, buffers));
  }

  lemma FetchedInside(was: seq<byte>, file: seq<byte>, size: nat, memory: nat -> byte)
    requires size <= |file|
    ensures Fetched(was, file, size, memory) == PWrite(was, 0, file[..size])
  {
  }

  /**
   PUT then GET, with the catalogue and the lock in between: whenever the PUT is accepted,
   the GET returns the size that was put if and only if the name was new or catalogued with
   that size, and then the local file holds the bytes that were put; the lock is free again.
   */
  method PutThenGet(m: Memory, disk: DiskFile, local: DiskFile, dest: DiskFile, put: Request, get: Request,
                    memory: nat -> byte)
    returns (after: Memory, a: Answer, b: Answer)
    requires Sound(m) && FreeFor(m.cat, m.ls, put.fi.filename)
    requires put.op == OpPut && get.op == OpGet && put.fi.filename == get.fi.filename
    requires put.fi.filesize == |local.bytes| && MessageCount(ToInt(put.fi.filesize)).Some?
    requires local != disk && dest != disk && local != dest
    modifies disk, dest
    ensures after == Served(m, put) && a == Answered(m.cat, put).1
    ensures a.Locked? ==> (b.Locked? && b.filesize == |local.bytes| <==> SizeKept(m.cat, put.fi))
    ensures a.Locked? && SizeKept(m.cat, put.fi) ==>
              && b == Locked(a.fidx, a.cnt, true, |local.bytes|)
              && dest.bytes == PWrite(old(dest.bytes), 0, local.bytes)
  {
    AllGivenBack(m, put, 0);
    after, a := PutFile(m, disk, local, put);
    after, b := GetFile(after, disk, dest, get, memory);
    if a.Locked? {
      GetSizeExactly(m.cat, put, [], get);
      FetchedInside(old(dest.bytes), disk.bytes, |local.bytes|, memory);
      assert disk.bytes[..|local.bytes|] == local.bytes;
    }
  }

  lemma StillFree(cat: seq<FileInfo>, ls: seq<Lock>, put: Request)
    requires Well(cat) && |ls| == |cat| && FreeFor(cat, ls, put.fi.filename)
    ensures var after := Answered(cat, put).0;
            FreeFor(after, LocksWith(ls, |cat|, |after|), put.fi.filename)
  {
    LookupKeeps(cat, put.fi, put.op == OpPut);
    var after := Answered(cat, put).0;
    if |after| > |cat| {
      assert Find(after, put.fi.filename) == |cat|;
    }
  }
}
