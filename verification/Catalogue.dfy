/**
 The catalogue of files: an append-only array that is searched by name, and the meta file
 it is persisted to in two writes.
 */
module Catalogue {
  import opened Options
  import opened RwLock
  import opened Stripes

  const MAX_FILE := 1000

  datatype FileInfo = FileInfo(filesize: uint32, filename: string, fileowner: string)

  /** One slot of the array, with the state of the file's lock and descriptors. */
  datatype FileMeta = FileMeta(fi: FileInfo, lock: Lock, rfd: int, wfd: int, waitJobCnt: int, timestamp: int)

  const BLANK := FileMeta(FileInfo(0, "", ""), FREE, 0, 0, 0, 0)

  predicate IsReset(m: FileMeta) { m.lock == FREE && m.rfd == -1 && m.wfd == -1 && m.waitJobCnt == 0 }

  // ---------------------------------------------------------------- search or add

  /** The first entry with the given name, or the length of the catalogue. */
  function Find(cat: seq<FileInfo>, name: string): (i: nat)
    ensures i <= |cat|
    ensures i < |cat| ==> cat[i].filename == name
    ensures forall j | 0 <= j < i :: cat[j].filename != name
  {
    if cat == [] || cat[0].filename == name then 0 else 1 + Find(cat[1..], name)
  }

  /** `get_file_index_from_list`, on the entries alone: the new entries and the index. */
  function Lookup(cat: seq<FileInfo>, fi: FileInfo, add: bool): (seq<FileInfo>, int) {
    var i := Find(cat, fi.filename);
    if i < |cat| then (cat, i)
    else if add && |cat| != MAX_FILE - 1 then (cat + [fi], |cat|)
    else (cat, -1)
  }

  predicate Well(cat: seq<FileInfo>) {
    && |cat| <= MAX_FILE - 1
    && forall i, j | 0 <= i < j < |cat| :: cat[i].filename != cat[j].filename
  }

  datatype Call = Call(fi: FileInfo, add: bool)

  /** The catalogue after a history of calls; the list's mutex makes each of them atomic. */
  function History(cat: seq<FileInfo>, calls: seq<Call>): seq<FileInfo>
    decreases |calls|
  {
    if calls == [] then cat else History(Lookup(cat, calls[0].fi, calls[0].add).0, calls[1..])
  }

  lemma LookupKeeps(cat: seq<FileInfo>, fi: FileInfo, add: bool)
    requires Well(cat)
    ensures var (r, i) := Lookup(cat, fi, add);
            && Well(r) && cat <= r
            && (i >= 0 ==> i < |r| && r[i].filename == fi.filename)
            && (i < 0 ==> i == -1 && r == cat && (forall e | e in cat :: e.filename != fi.filename) &&
                          (!add || |cat| == MAX_FILE - 1))
  {
  }

  /**
   What search-or-add does, outright: a name that is there is found where it is, and nothing
   changes; a new one is appended exactly as it was sent unless 999 are there.
   */
  predicate SearchedOrAdded(cat: seq<FileInfo>, fi: FileInfo, add: bool, r: seq<FileInfo>, i: int) {
    if exists k :: 0 <= k < |cat| && cat[k].filename == fi.filename then
      r == cat && 0 <= i < |cat| && cat[i].filename == fi.filename
    else if add && |cat| < 999 then r == cat + [fi] && i == |cat|
    else r == cat && i == -1
  }

  lemma LookupExactly(cat: seq<FileInfo>, fi: FileInfo, add: bool)
    requires Well(cat)
    ensures SearchedOrAdded(cat, fi, add, Lookup(cat, fi, add).0, Lookup(cat, fi, add).1)
  {
    var i := Find(cat, fi.filename);
    if k :| 0 <= k < |cat| && cat[k].filename == fi.filename {
      assert i < |cat|;
    } else {
      assert i == |cat|;
    }
  }

  /** Over every history the catalogue only grows at its end, keeps its names apart and stays within bounds. */
  lemma {:induction false} AppendOnly(cat: seq<FileInfo>, calls: seq<Call>)
    requires Well(cat)
    ensures Well(History(cat, calls)) && cat <= History(cat, calls)
    decreases |calls|
  {
    if calls == [] {
    } else {
      LookupKeeps(cat, calls[0].fi, calls[0].add);
      AppendOnly(Lookup(cat, calls[0].fi, calls[0].add).0, calls[1..]);
    }
  }

  /**
   A name keeps its index and its file info for ever: whatever happens after a call that
   found or added `fi`, every later call with that name returns the same index, and the
   entry there is still the one found, or the one sent if the name was new.
   */
  lemma IndexIsStable(cat: seq<FileInfo>, fi: FileInfo, add: bool, calls: seq<Call>, later: FileInfo, add': bool)
    requires Well(cat) && later.filename == fi.filename
    requires Lookup(cat, fi, add).1 >= 0
    ensures var (r, i) := Lookup(cat, fi, add);
            var end := History(r, calls);
            && i < |r| <= |end| && end[i] == r[i]
            && end[i] == (if i < |cat| then cat[i] else fi)
            && Lookup(end, later, add') == (end, i)
  {
    LookupKeeps(cat, fi, add);
    var (r, i) := Lookup(cat, fi, add);
    AppendOnly(r, calls);
    var end := History(r, calls);
    assert end[i] == r[i];
    assert Find(end, later.filename) == i;
  }

  /** The reply to LIST: the entries below the count reported earlier are those of that moment. */
  lemma ListIsStable(cat: seq<FileInfo>, calls: seq<Call>)
    requires Well(cat)
    ensures |cat| <= |History(cat, calls)| && History(cat, calls)[..|cat|] == cat
  {
    AppendOnly(cat, calls);
  }

  // ---------------------------------------------------------------- as a map

  /** The catalogue as a map from names to indices, built by inserting the entries in turn. */
  function Index(cat: seq<FileInfo>): map<string, nat> {
    if cat == [] then map[] else Index(cat[..|cat|-1])[cat[|cat|-1].filename := |cat| - 1]
  }

  /** Search-or-add on a map from names to indices. */
  function MapLookup(m: map<string, nat>, name: string, add: bool): (map<string, nat>, int) {
    if name in m then (m, m[name])
    else if add && |m| != MAX_FILE - 1 then (m[name := |m|], |m|)
    else (m, -1)
  }

  lemma FindInFront(cat: seq<FileInfo>, name: string)
    requires cat != []
    ensures var n := |cat| - 1;
            var i := Find(cat[..n], name);
            Find(cat, name) == if i < n then i else if cat[n].filename == name then n else n + 1
  {
    var n := |cat| - 1;
    assert forall j | 0 <= j < n :: cat[..n][j] == cat[j];
  }

  /** Linear search finds what the map holds. */
  lemma {:induction false} FindIsIndex(cat: seq<FileInfo>, name: string)
    requires Well(cat)
    ensures |Index(cat)| == |cat|
    ensures name in Index(cat) <==> Find(cat, name) < |cat|
    ensures name in Index(cat) ==> Index(cat)[name] == Find(cat, name)
  {
    if cat == [] {
    } else {
      var n := |cat| - 1;
      FindInFront(cat, name);
      FindIsIndex(cat[..n], name);
      FindIsIndex(cat[..n], cat[n].filename);
      FindInFront(cat, cat[n].filename);
      NewName(cat);
      assert Index(cat).Keys == Index(cat[..n]).Keys + {cat[n].filename};
    }
  }

  lemma NewName(cat: seq<FileInfo>)
    requires Well(cat) && cat != []
    ensures Find(cat[..|cat|-1], cat[|cat|-1].filename) == |cat| - 1
  {
    var n := |cat| - 1;
    assert forall j | 0 <= j < n :: cat[..n][j].filename != cat[n].filename;
  }

  /** Linear search of the array gives the map's answer and makes the map's change. */
  lemma RefinesMap(cat: seq<FileInfo>, fi: FileInfo, add: bool)
    requires Well(cat)
    ensures var (r, i) := Lookup(cat, fi, add);
            (Index(r), i) == MapLookup(Index(cat), fi.filename, add)
  {
    FindIsIndex(cat, fi.filename);
    assert (cat + [fi])[..|cat|] == cat;
  }

  // ---------------------------------------------------------------- the meta file

  /** The meta file: too short to hold a list (as when it is new), or all slots and a count. */
  datatype Disk = Short | Full(slots: seq<FileMeta>, cnt: int)

  /** The entries that a start from this file finds. */
  function OnDisk(d: Disk): seq<FileInfo>
    requires Readable(d)
  {
    if d.Short? then [] else seq(d.cnt, i requires 0 <= i < d.cnt => d.slots[i].fi)
  }

  predicate Readable(d: Disk) { d.Full? ==> |d.slots| == MAX_FILE && 0 <= d.cnt <= MAX_FILE - 1 }

  /** The file after the first write of `add_file_to_list`. */
  function SlotWritten(d: Disk, i: nat, m: FileMeta): (r: Disk)
    requires d.Full? && i < |d.slots|
    ensures r.Full?
  {
    d.(slots := d.slots[i := m])
  }

  /**
   At every point of an addition the file holds the old catalogue or the old one with the
   new entry: the slot that is written first is not counted before the second write.
   */
  lemma AdditionIsAtomic(d: Disk, m: FileMeta)
    requires Readable(d) && d.Full? && d.cnt < MAX_FILE - 1
    ensures var first := SlotWritten(d, d.cnt, m);
            var second := first.(cnt := d.cnt + 1);
            && Readable(first) && OnDisk(first) == OnDisk(d)
            && Readable(second) && OnDisk(second) == OnDisk(d) + [m.fi]
  {
  }

  /** Two images were added, and they hold the old and the new catalogue. */
  ghost predicate AddedImages(was: seq<Disk>, now: seq<Disk>, before: seq<FileInfo>, after: seq<FileInfo>) {
    && |now| == |was| + 2 && was <= now
    && Readable(now[|was|]) && Readable(now[|was| + 1])
    && OnDisk(now[|was|]) == before && OnDisk(now[|was| + 1]) == after
  }

  ghost predicate FrontsOf(images: seq<Disk>, cat: seq<FileInfo>) {
    forall k | 0 <= k < |images| :: Readable(images[k]) && OnDisk(images[k]) <= cat
  }

  lemma OldImages(was: seq<Disk>, now: seq<Disk>, cat: seq<FileInfo>, fi: FileInfo)
    requires FrontsOf(was, cat) && AddedImages(was, now, cat, cat + [fi])
    ensures FrontsOf(now, cat + [fi])
  {
    forall k | 0 <= k < |now| ensures Readable(now[k]) && OnDisk(now[k]) <= cat + [fi] {
      if k < |was| { assert now[k] == was[k]; }
    }
  }

  class FileList {
    var filearr: array<FileMeta>
    var cnt: int
    var disk: Disk
    /** Every content the meta file has had since the start. */
    ghost var images: seq<Disk>

    ghost function Infos(): (r: seq<FileInfo>)
      reads this, filearr
      requires 0 <= cnt <= filearr.Length
      ensures |r| == cnt && forall i | 0 <= i < cnt :: r[i] == filearr[i].fi
    {
      seq(cnt, i requires 0 <= i < cnt <= filearr.Length reads this, filearr => filearr[i].fi)
    }

    /** The entries are well-formed and a restart at this or any earlier moment finds a front of them. */
    ghost predicate Valid()
      reads this, filearr
    {
      && filearr.Length == MAX_FILE && 0 <= cnt <= MAX_FILE - 1
      && Well(Infos())
      && disk.Full? && Readable(disk) && OnDisk(disk) == Infos()
      && images != [] && images[|images|-1] == disk
      && FrontsOf(images, Infos())
    }

    /**
     `filelist_init`: the entries are taken as they are, and whatever lock state the file
     holds is reset.  The result is a catalogue if and only if the count leaves a slot free
     and the names differ, which the source does not look at.
     */
    constructor (file: Disk, now: int)
      requires file.Full? ==> |file.slots| == MAX_FILE && file.cnt <= MAX_FILE
      ensures Valid() <==> Readable(file) && Well(OnDisk(file))
      ensures Valid() ==> Infos() == OnDisk(file)
      ensures cnt == (if file.Full? then file.cnt else 0) && filearr.Length == MAX_FILE
      ensures forall i | 0 <= i < cnt ::
                file.Full? && filearr[i] == FileMeta(file.slots[i].fi, Lock(0, 0, []), -1, -1, 0, now)
      ensures forall i | 0 <= cnt <= i < MAX_FILE ::
                filearr[i] == if file.Full? then file.slots[i]
                              else FileMeta(FileInfo(0, "", ""), Lock(0, 0, []), 0, 0, 0, 0)
      ensures disk == (if file.Full? then file else Full(seq(MAX_FILE, _ => BLANK), 0))
      ensures images == [disk] && fresh(filearr)
    {
      var start := file;
      if file.Short? {
        start := Full(seq(MAX_FILE, _ => BLANK), 0);
      }
      var slots := start.slots;
      filearr := new FileMeta[MAX_FILE](i requires 0 <= i < |slots| => slots[i]);
      cnt := start.cnt;
      disk := start;
      images := [start];
      new;
      var i := 0;
      while i < cnt
        invariant 0 <= i && (i <= cnt || i == 0) && cnt == start.cnt && disk == start && images == [start]
        invariant fresh(filearr) && filearr.Length == MAX_FILE
        invariant forall k | 0 <= k < i :: filearr[k] == FileMeta(start.slots[k].fi, FREE, -1, -1, 0, now)
        invariant forall k | i <= k < MAX_FILE :: filearr[k] == start.slots[k]
      {
        filearr[i] := FileMeta(filearr[i].fi, FREE, -1, -1, 0, now);
        i := i + 1;
      }
      Loaded(file);
    }

    /** Entries as the start image has them make a catalogue exactly if that image holds one. */
    lemma Loaded(file: Disk)
      requires file.Full? ==> |file.slots| == MAX_FILE && disk == file
      requires file.Short? ==> disk == Full(seq(MAX_FILE, _ => BLANK), 0)
      requires filearr.Length == MAX_FILE && cnt == disk.cnt <= MAX_FILE && images == [disk]
      requires forall k | 0 <= k < cnt :: filearr[k].fi == disk.slots[k].fi
      ensures Valid() <==> Readable(file) && Well(OnDisk(file))
      ensures Valid() ==> Infos() == OnDisk(file)
    {
      assert Readable(file) <==> Readable(disk);
      if Readable(file) {
        assert OnDisk(disk) == OnDisk(file);
        assert Infos() == OnDisk(file);
      }
    }

    /** One atomic `pwrite` to the meta file. */
    method Persist(d: Disk)
      modifies this`disk, this`images
      ensures disk == d && images == old(images) + [d]
    {
      disk := d;
      images := images + [d];
    }

    /** The two writes of an addition, the slot before the count. */
    method PersistAddition(m: FileMeta)
      requires disk.Full? && Readable(disk) && disk.cnt < MAX_FILE - 1
      modifies this`disk, this`images
      ensures var first := SlotWritten(old(disk), old(disk).cnt, m);
              disk == Full(first.slots, old(disk).cnt + 1) && images == old(images) + [first, disk]
    {
      Persist(SlotWritten(disk, disk.cnt, m));
      Persist(disk.(cnt := disk.cnt + 1));
    }

    /** A fresh slot: the lock is initialised and the file info copied in. */
    method FillSlot(n: nat, fi: FileInfo)
      requires n < filearr.Length
      modifies filearr
      ensures filearr[n] == FileMeta(fi, Lock(0, 0, []), -1, -1, 0, old(filearr[n].timestamp))
      ensures forall i | 0 <= i < filearr.Length && i != n :: filearr[i] == old(filearr[i])
    {
      filearr[n] := FileMeta(filearr[n].fi, FREE, -1, -1, 0, filearr[n].timestamp);
      filearr[n] := filearr[n].(fi := fi);
    }

    /** `add_file_to_list`. */
    method AddFile(fi: FileInfo) returns (idx: int)
      requires Valid() && Find(Infos(), fi.filename) == |Infos()|
      modifies this, filearr
      ensures Valid() && filearr == old(filearr)
      ensures (Infos(), idx) == Lookup(old(Infos()), fi, true)
      ensures SearchedOrAdded(old(Infos()), fi, true, Infos(), idx) && OnDisk(disk) == Infos()
      ensures idx == -1 ==> images == old(images)
      ensures idx >= 0 ==> IsReset(filearr[idx]) && AddedImages(old(images), images, old(Infos()), Infos())
    {
      LookupExactly(Infos(), fi, true);
      if cnt == MAX_FILE - 1 {
        return -1;
      }
      ghost var cat, was := Infos(), images;
      LookupKeeps(cat, fi, true);
      WriteEntry(fi);
      OldImages(was, images, cat, fi);
      idx := cnt - 1;
    }

    /** A new entry in memory and on disk. */
    method WriteEntry(fi: FileInfo)
      requires filearr.Length == MAX_FILE && 0 <= cnt < MAX_FILE - 1
      requires disk.Full? && Readable(disk) && OnDisk(disk) == Infos()
      modifies this, filearr
      ensures filearr == old(filearr) && cnt == old(cnt) + 1
      ensures Infos() == old(Infos()) + [fi] && IsReset(filearr[cnt - 1])
      ensures disk.Full? && Readable(disk) && OnDisk(disk) == Infos()
      ensures images != [] && images[|images|-1] == disk
      ensures AddedImages(old(images), images, old(Infos()), Infos())
    {
      ghost var cat, d := Infos(), disk;
      FillSlot(cnt, fi);
      AdditionIsAtomic(d, filearr[cnt]);
      PersistAddition(filearr[cnt]);
      cnt := cnt + 1;
      assert Infos() == cat + [fi];
    }

    /** `get_file_index_from_list`. */
    method GetFileIndex(fi: FileInfo, add: bool) returns (i: int)
      requires Valid()
      modifies this, filearr
      ensures Valid() && filearr == old(filearr)
      ensures (Infos(), i) == Lookup(old(Infos()), fi, add)
      ensures SearchedOrAdded(old(Infos()), fi, add, Infos(), i) && OnDisk(disk) == Infos()
      ensures old(images) <= images
      ensures forall k | |old(images)| <= k < |images| :: OnDisk(images[k]) in {old(Infos()), Infos()}
    {
      LookupExactly(Infos(), fi, add);
      i := 0;
      while i < cnt
        invariant 0 <= i <= cnt
        invariant forall j | 0 <= j < i :: filearr[j].fi.filename != fi.filename
      {
        if filearr[i].fi.filename == fi.filename {
          break;
        }
        i := i + 1;
      }
      assert Find(Infos(), fi.filename) == i;
      if i == cnt {
        if add {
          i := AddFile(fi);
        } else {
          i := -1;
        }
      }
    }

    /** `get_filemeta_by_idx`. */
    method GetFileMeta(fidx: nat) returns (m: Option<FileMeta>)
      requires Valid()
      ensures m == if fidx >= cnt then None else Some(filearr[fidx])
    {
      if fidx >= cnt {
        return None;
      }
      return Some(filearr[fidx]);
    }

    method GetFileCnt() returns (n: int)
      requires Valid()
      ensures n == |Infos()|
    {
      n := cnt;
    }

    /** The data half of LIST: a count beyond the catalogue's dereferences a null pointer. */
    method ListEntries(n: int) returns (entries: Option<seq<FileInfo>>)
      requires Valid()
      ensures entries == if n > cnt then None else Some(Infos()[..if n > 0 then n else 0])
    {
      var found: seq<FileInfo> := [];
      var fidx := 0;
      while fidx < n
        invariant 0 <= fidx <= cnt && (fidx <= n || fidx == 0) && found == Infos()[..fidx]
      {
        var m := GetFileMeta(fidx);
        if m.None? {
          return None;
        }
        found := found + [m.value.fi];
        fidx := fidx + 1;
      }
      return Some(found);
    }
  }
}
