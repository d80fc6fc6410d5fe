// The write-behind cache between the file system tools and a USB stick: usb_scsi.cpp.

/** Disks as sequences of sectors, logs of sector writes, and the byte view of both. */
module SectorLog {
  import opened Basics

  const SECTOR := 512
  const CHUNK := 2048

  type Sector = s: seq<byte> | |s| == SECTOR witness seq(SECTOR, _ => 0)

  datatype Write = Write(lba: nat, data: Sector)

  /** Byte p of a disk. */
  function DiskByte(disk: seq<Sector>, p: nat): byte
    requires p < SECTOR * |disk|
  {
    disk[p / SECTOR][p % SECTOR]
  }

  /** The bytes [from, from + count) of a disk. */
  function Extract(disk: seq<Sector>, from: nat, count: nat): (bytes: seq<byte>)
    requires from + count <= SECTOR * |disk|
    ensures |bytes| == count && forall j | 0 <= j < count :: bytes[j] == DiskByte(disk, from + j)
  {
    if count == 0 then [] else Extract(disk, from, count - 1) + [DiskByte(disk, from + count - 1)]
  }

  lemma ByteOfSector(disk: seq<Sector>, lba: nat, j: nat)
    requires lba < |disk| && j < SECTOR
    ensures DiskByte(disk, SECTOR * lba + j) == disk[lba][j]
  {
  }

  /** The disk after the writes of a log, first to last. */
  function Replay(disk: seq<Sector>, log: seq<Write>): (after: seq<Sector>)
    ensures |after| == |disk|
  {
    if log == [] then disk
    else
      var last := log[|log| - 1];
      var before := Replay(disk, log[..|log| - 1]);
      if last.lba < |disk| then before[last.lba := last.data] else before
  }

  lemma {:induction false} ReplayAppend(disk: seq<Sector>, first: seq<Write>, second: seq<Write>)
    ensures Replay(disk, first + second) == Replay(Replay(disk, first), second)
  {
    if second == [] {
      assert first + second == first;
    } else {
      var most := second[..|second| - 1];
      ReplayAppend(disk, first, most);
      assert (first + second)[..|first + second| - 1] == first + most;
    }
  }

  /** A disk with a run of sectors laid over it. */
  function Overlay(disk: seq<Sector>, lba: nat, run: seq<Sector>): (after: seq<Sector>)
    ensures |after| == |disk|
    ensures forall i | 0 <= i < |disk| :: after[i] == if lba <= i < lba + |run| then run[i - lba] else disk[i]
  {
    seq(|disk|, i requires 0 <= i < |disk| => if lba <= i < lba + |run| then run[i - lba] else disk[i])
  }

  /** A run of sectors as separate writes, lowest address first. */
  function RunWrites(lba: nat, run: seq<Sector>): (log: seq<Write>)
    ensures |log| == |run| && forall i | 0 <= i < |run| :: log[i] == Write(lba + i, run[i])
  {
    seq(|run|, i requires 0 <= i < |run| => Write(lba + i, run[i]))
  }

  lemma {:induction false} ReplayRun(disk: seq<Sector>, lba: nat, run: seq<Sector>)
    ensures Replay(disk, RunWrites(lba, run)) == Overlay(disk, lba, run)
  {
    if run != [] {
      var most := run[..|run| - 1];
      ReplayRun(disk, lba, most);
      assert RunWrites(lba, run)[..|run| - 1] == RunWrites(lba, most);
    }
  }

  lemma RunWritesAppend(lba: nat, first: seq<Sector>, second: seq<Sector>)
    ensures RunWrites(lba, first) + RunWrites(lba + |first|, second) == RunWrites(lba, first + second)
  {
  }

  /**
   * Crash-prefix ordering. Every image the disk ever had is the initial disk after a prefix of the log,
   * one image for each write that reached it; the cached run is exactly the rest of the log.
   */
  ghost predicate Ordered(initial: seq<Sector>, images: seq<seq<Sector>>, log: seq<Write>, lba: nat, run: seq<Sector>) {
    && 0 < |images| <= |log| + 1
    && (forall k | 0 <= k < |images| :: images[k] == Replay(initial, log[..k]))
    && log[|images| - 1..] == RunWrites(lba, run)
  }

  /** The images a disk goes through while a run is written to it sector by sector. */
  function RunImages(disk: seq<Sector>, lba: nat, run: seq<Sector>): (images: seq<seq<Sector>>)
    ensures |images| == |run|
  {
    seq(|run|, k requires 0 <= k < |run| => Overlay(disk, lba, run[..k + 1]))
  }

  /** The overlaid disk is what all the writes so far amount to. */
  lemma ViewIsReplay(initial: seq<Sector>, images: seq<seq<Sector>>, log: seq<Write>, lba: nat, run: seq<Sector>)
    requires Ordered(initial, images, log, lba, run)
    ensures Overlay(images[|images| - 1], lba, run) == Replay(initial, log)
  {
    var done := |images| - 1;
    ReplayAppend(initial, log[..done], log[done..]);
    assert log[..done] + log[done..] == log;
    ReplayRun(images[done], lba, run);
  }

  /** Flushing the run writes the rest of the log, in order. */
  lemma FlushKeepsOrder(initial: seq<Sector>, images: seq<seq<Sector>>, log: seq<Write>,
                        lba: nat, run: seq<Sector>, anywhere: nat)
    requires Ordered(initial, images, log, lba, run)
    ensures Ordered(initial, images + RunImages(images[|images| - 1], lba, run), log, anywhere, [])
    ensures var after := images + RunImages(images[|images| - 1], lba, run);
            after[|after| - 1] == Overlay(images[|images| - 1], lba, run)
  {
    assert run[..|run|] == run;
    var done := |images| - 1;
    var after := images + RunImages(images[done], lba, run);
    forall k | 0 <= k < |after| ensures after[k] == Replay(initial, log[..k]) {
      if k > done {
        var part := run[..k - done];
        ReplayRun(images[done], lba, part);
        assert RunWrites(lba, part) == RunWrites(lba, run)[..k - done] == log[done..k];
        ReplayAppend(initial, log[..done], log[done..k]);
        assert log[..done] + log[done..k] == log[..k];
      }
    }
    assert log[|after| - 1..] == [] == RunWrites(anywhere, []);
  }

  /** Caching more sectors right behind the run appends their writes to the log. */
  lemma AppendKeepsOrder(initial: seq<Sector>, images: seq<seq<Sector>>, log: seq<Write>,
                         lba: nat, run: seq<Sector>, more: seq<Sector>)
    requires Ordered(initial, images, log, lba, run)
    ensures Ordered(initial, images, log + RunWrites(lba + |run|, more), lba, run + more)
  {
    var longer := log + RunWrites(lba + |run|, more);
    forall k | 0 <= k < |images| ensures images[k] == Replay(initial, longer[..k]) {
      assert longer[..k] == log[..k];
    }
    RunWritesAppend(lba, run, more);
    var done := |images| - 1;
    assert longer[done..] == log[done..] + RunWrites(lba + |run|, more);
  }

  /** A sector of the disk with the bytes of `data` that fall into it replaced. */
  function PatchedSector(sector: Sector, lba: nat, offset: nat, data: seq<byte>): (s: Sector)
    ensures forall j | 0 <= j < SECTOR ::
      s[j] == if offset <= SECTOR * lba + j < offset + |data| then data[SECTOR * lba + j - offset] else sector[j]
  {
    seq(SECTOR, j requires 0 <= j < SECTOR =>
      if offset <= SECTOR * lba + j < offset + |data| then data[SECTOR * lba + j - offset] else sector[j])
  }

  /** The disk with bytes [offset, offset + |data|) replaced. */
  function Spliced(disk: seq<Sector>, offset: nat, data: seq<byte>): (after: seq<Sector>)
    ensures |after| == |disk|
    ensures forall i | 0 <= i < |disk| :: after[i] == PatchedSector(disk[i], i, offset, data)
  {
    seq(|disk|, i requires 0 <= i < |disk| => PatchedSector(disk[i], i, offset, data))
  }

  /** Exactly the bytes [offset, offset + |data|) change. */
  lemma SplicedBytes(disk: seq<Sector>, offset: nat, data: seq<byte>, p: nat)
    requires p < SECTOR * |disk|
    ensures DiskByte(Spliced(disk, offset, data), p)
         == if offset <= p < offset + |data| then data[p - offset] else DiskByte(disk, p)
  {
  }

  /** The first sector not touched by writing up to byte `end`. */
  function SectorsUpTo(end: nat): nat {
    (end + SECTOR - 1) / SECTOR
  }

  /** The sector writes of one call: every touched sector once, in ascending order, with its final content. */
  function CallWrites(disk: seq<Sector>, offset: nat, data: seq<byte>): seq<Write>
    requires offset + |data| <= SECTOR * |disk|
  {
    if data == [] then []
    else
      RunWrites(offset / SECTOR, Spliced(disk, offset, data)[offset / SECTOR..SectorsUpTo(offset + |data|)])
  }

  lemma UntouchedSector(sector: Sector, lba: nat, offset: nat, data: seq<byte>)
    requires data == [] || !(offset / SECTOR <= lba < SectorsUpTo(offset + |data|))
    ensures PatchedSector(sector, lba, offset, data) == sector
  {
  }

  /** The writes of a call amount to the splice. */
  lemma CallWritesSplice(disk: seq<Sector>, offset: nat, data: seq<byte>)
    requires offset + |data| <= SECTOR * |disk|
    ensures Replay(disk, CallWrites(disk, offset, data)) == Spliced(disk, offset, data)
  {
    hide PatchedSector;
    var first, last := offset / SECTOR, SectorsUpTo(offset + |data|);
    var after := Spliced(disk, offset, data);
    forall i | 0 <= i < |disk| && (data == [] || !(first <= i < last)) ensures after[i] == disk[i] {
      UntouchedSector(disk[i], i, offset, data);
    }
    if data != [] {
      ReplayRun(disk, first, after[first..last]);
    }
  }

  /** Whole sectors cut out of a buffer. */
  function SectorsOf(bytes: seq<byte>, n: nat): (run: seq<Sector>)
    requires |bytes| == SECTOR * n
    ensures |run| == n
    ensures forall i | 0 <= i < n :: run[i] == bytes[SECTOR * i..SECTOR * (i + 1)]
  {
    seq(n, i requires 0 <= i < n => bytes[SECTOR * i..SECTOR * (i + 1)])
  }

  /** Sectors covered entirely by the data of a call end up holding that data. */
  lemma FullSectors(disk: seq<Sector>, offset: nat, data: seq<byte>, lba: nat, n: nat)
    requires offset <= SECTOR * lba && SECTOR * (lba + n) <= offset + |data| <= SECTOR * |disk|
    ensures SectorsOf(data[SECTOR * lba - offset..][..SECTOR * n], n) == Spliced(disk, offset, data)[lba..lba + n]
  {
    var from := SECTOR * lba - offset;
    forall i | 0 <= i < n
      ensures data[from..][..SECTOR * n][SECTOR * i..SECTOR * (i + 1)] == PatchedSector(disk[lba + i], lba + i, offset, data)
    {
    }
  }

  /** The first and the last sector of a call may be covered in part: bytes [at, at + n) of it change. */
  lemma EdgeSector(sector: Sector, lba: nat, offset: nat, data: seq<byte>, done: nat, at: nat, n: nat)
    requires offset + done == SECTOR * lba + at && at < SECTOR && done + n <= |data|
    requires done == 0 || at == 0
    requires n == if SECTOR - at < |data| - done then SECTOR - at else |data| - done
    ensures PatchedSector(sector, lba, offset, data) == PatchedSector(sector, 0, at, data[done..done + n])
  {
  }

  lemma SliceOfTail<T>(first: seq<T>, second: seq<T>, lo: nat, hi: nat)
    requires lo <= hi <= |second|
    ensures (first + second)[|first| + lo..|first| + hi] == second[lo..hi]
  {
  }

  lemma SliceOfHead<T>(first: seq<T>, second: seq<T>, lo: nat, hi: nat)
    requires lo <= hi <= |first|
    ensures (first + second)[lo..hi] == first[lo..hi]
  {
  }

  lemma SectorsOfAppend(first: seq<byte>, m: nat, second: seq<byte>, n: nat)
    requires |first| == SECTOR * m && |second| == SECTOR * n
    ensures SectorsOf(first + second, m + n) == SectorsOf(first, m) + SectorsOf(second, n)
  {
    var whole := SectorsOf(first + second, m + n);
    forall i | 0 <= i < m + n ensures whole[i] == (SectorsOf(first, m) + SectorsOf(second, n))[i] {
      assert whole[i] == (first + second)[SECTOR * i..SECTOR * (i + 1)];
      if i >= m {
        SliceOfTail(first, second, SECTOR * (i - m), SECTOR * (i - m + 1));
      } else {
        SliceOfHead(first, second, SECTOR * i, SECTOR * (i + 1));
      }
    }
  }

  lemma EmptyRunAnywhere(initial: seq<Sector>, images: seq<seq<Sector>>, log: seq<Write>, lba: nat, anywhere: nat)
    requires Ordered(initial, images, log, lba, [])
    ensures Ordered(initial, images, log, anywhere, [])
  {
  }

  /** A sector written past the cache, while the cache is empty. */
  lemma DirectWriteKeepsOrder(initial: seq<Sector>, images: seq<seq<Sector>>, log: seq<Write>,
                              lba: nat, run: seq<Sector>, anywhere: nat)
    requires Ordered(initial, images, log, anywhere, [])
    ensures Ordered(initial, images + RunImages(images[|images| - 1], lba, run), log + RunWrites(lba, run), anywhere, [])
    ensures var after := images + RunImages(images[|images| - 1], lba, run);
            after[|after| - 1] == Overlay(images[|images| - 1], lba, run)
  {
    EmptyRunAnywhere(initial, images, log, anywhere, lba);
    AppendKeepsOrder(initial, images, log, lba, [], run);
    assert [] + run == run;
    FlushKeepsOrder(initial, images, log + RunWrites(lba, run), lba, run, anywhere);
  }

  /** The run, laid over the disk, would change no sector but one. */
  predicate ChangesAtMost(disk: seq<Sector>, lba: nat, run: seq<Sector>, at: nat) {
    forall i | lba <= i < lba + |run| && i < |disk| && i != at :: run[i - lba] == disk[i]
  }

  /** The two runs agree wherever they overlap. */
  predicate Agree(lba: nat, run: seq<Sector>, at: nat, data: seq<Sector>) {
    forall k | 0 <= k < |run| && at <= lba + k < at + |data| :: run[k] == data[lba + k - at]
  }

  lemma ImagesOfRun(images: seq<seq<Sector>>, lba: nat, run: seq<Sector>)
    requires |images| > 0
    ensures var disk := images[|images| - 1]; var after := images + RunImages(disk, lba, run);
      && (forall j: nat | 0 < j <= |run| :: after[|images| - 1 + j] == Overlay(disk, lba, run[..j]))
      && after[|after| - 1] == Overlay(disk, lba, run)
  {
    hide Overlay;
    OverlayNothing(images[|images| - 1], lba);
    assert run[..|run|] == run;
  }

  lemma ReplayBehind(initial: seq<Sector>, images: seq<seq<Sector>>, log: seq<Write>, lba: nat, run: seq<Sector>,
                     at: nat, data: seq<Sector>)
    requires Ordered(initial, images, log, lba, run)
    ensures Replay(initial, log + RunWrites(at, data)) == Overlay(Overlay(images[|images| - 1], lba, run), at, data)
  {
    hide Overlay, RunWrites, Ordered;
    ReplayAppend(initial, log, RunWrites(at, data));
    ViewIsReplay(initial, images, log, lba, run);
    ReplayRun(Replay(initial, log), at, data);
  }

  /** Sectors written past the cache: after each of them the medium is what all writes so far amount to, exactly if
      what is cached would change no sector but the first of them. */
  lemma DirectWriteInStep(initial: seq<Sector>, images: seq<seq<Sector>>, log: seq<Write>, lba: nat, run: seq<Sector>,
                          at: nat, data: seq<Sector>)
    requires Ordered(initial, images, log, lba, run)
    ensures (forall j: nat | 0 < j <= |data| ::
               Overlay(images[|images| - 1], at, data[..j]) == Replay(initial, log + RunWrites(at, data[..j])))
       <==> data == [] || ChangesAtMost(images[|images| - 1], lba, run, at)
  {
    hide Replay, RunWrites;
    var disk := images[|images| - 1];
    forall j: nat | 0 < j <= |data|
      ensures Replay(initial, log + RunWrites(at, data[..j])) == Overlay(Overlay(disk, lba, run), at, data[..j])
    {
      ReplayBehind(initial, images, log, lba, run, at, data[..j]);
    }
    if data != [] {
      OverlaysAgree(disk, lba, run, at, data[..1]);
      if ChangesAtMost(disk, lba, run, at) {
        forall j: nat | 0 < j <= |data|
          ensures Overlay(disk, at, data[..j]) == Overlay(Overlay(disk, lba, run), at, data[..j])
        {
        }
      } else {
        assert Overlay(disk, at, data[..1]) != Overlay(Overlay(disk, lba, run), at, data[..1]);
      }
    }
  }

  lemma OverlaysAgree(disk: seq<Sector>, lba: nat, run: seq<Sector>, at: nat, part: seq<Sector>)
    requires |part| == 1
    ensures Overlay(disk, at, part) == Overlay(Overlay(disk, lba, run), at, part) <==> ChangesAtMost(disk, lba, run, at)
  {
    var one, two := Overlay(disk, at, part), Overlay(Overlay(disk, lba, run), at, part);
    if one == two {
      forall i | lba <= i < lba + |run| && i < |disk| && i != at ensures run[i - lba] == disk[i] {
        assert one[i] == two[i];
      }
    } else {
      var i :| 0 <= i < |disk| && one[i] != two[i];
      assert i != at && two[i] == Overlay(disk, lba, run)[i];
    }
  }

  /** Once the cached run is flushed behind them, all writes have their effect exactly if the two agree where they
      overlap: the cached sectors, written first, come last. */
  lemma DirectWriteStays(initial: seq<Sector>, images: seq<seq<Sector>>, log: seq<Write>, lba: nat, run: seq<Sector>,
                         at: nat, data: seq<Sector>)
    requires Ordered(initial, images, log, lba, run)
    requires lba + |run| <= |images[|images| - 1]| && at + |data| <= |images[|images| - 1]|
    ensures Overlay(Overlay(images[|images| - 1], at, data), lba, run) == Replay(initial, log + RunWrites(at, data))
       <==> Agree(lba, run, at, data)
  {
    hide Replay, RunWrites;
    var disk := images[|images| - 1];
    ReplayBehind(initial, images, log, lba, run, at, data);
    var one, two := Overlay(Overlay(disk, at, data), lba, run), Overlay(Overlay(disk, lba, run), at, data);
    if one == two {
      forall k | 0 <= k < |run| && at <= lba + k < at + |data| ensures run[k] == data[lba + k - at] {
        assert one[lba + k] == two[lba + k];
      }
    }
  }

  function Filled(b: byte): Sector {
    seq(SECTOR, _ => b)
  }

  /** A cached sector and one written past it: the medium comes to hold the second without the first. */
  lemma DirectWriteOvertakes()
    ensures var initial, log, more := [Filled(0), Filled(0)], [Write(1, Filled(1))], [Write(0, Filled(2))];
      && Ordered(initial, [initial], log, 1, [Filled(1)])
      && forall k: nat | k <= |log + more| :: Replay(initial, (log + more)[..k]) != Overlay(initial, 0, [Filled(2)])
  {
    var initial, log, more := [Filled(0), Filled(0)], [Write(1, Filled(1))], [Write(0, Filled(2))];
    var image := Overlay(initial, 0, [Filled(2)]);
    assert log[0..] == RunWrites(1, [Filled(1)]) && log[..0] == [];
    assert Filled(0)[0] == 0 && Filled(1)[0] == 1 && Filled(2)[0] == 2;
    assert image[0] == Filled(2) && image[1] == Filled(0);
    assert (log + more)[..0] == [] && (log + more)[..1] == log && (log + more)[..2] == log + more;
    assert log[..|log| - 1] == [] && (log + more)[..|log + more| - 1] == log;
    assert Replay(initial, log) == [Filled(0), Filled(1)];
    assert Replay(initial, log + more) == [Filled(2), Filled(1)];
  }

  lemma OverlayNothing(disk: seq<Sector>, lba: nat)
    ensures Overlay(disk, lba, []) == disk
  {
  }

  lemma OverlayAppend(disk: seq<Sector>, lba: nat, first: seq<Sector>, second: seq<Sector>)
    ensures Overlay(Overlay(disk, lba, first), lba + |first|, second) == Overlay(disk, lba, first + second)
  {
  }

  /** The first sector that a call has not dealt with once `done` bytes are. */
  function NextSector(offset: nat, done: nat): nat {
    if done == 0 then offset / SECTOR else SectorsUpTo(offset + done)
  }

  /** How far a writing call has come: whole sectors of the splice, in the view and in the log. */
  ghost predicate Progress(before: seq<Sector>, offset: nat, data: seq<byte>, done: nat,
                           view: seq<Sector>, log: seq<Write>) {
    var first, next := offset / SECTOR, NextSector(offset, done);
    && done <= |data| && offset + |data| <= SECTOR * |before|
    && (done == 0 || done == |data| || (offset + done) % SECTOR == 0)
    && next <= |before|
    && view == Overlay(before, first, Spliced(before, offset, data)[first..next])
    && log == RunWrites(first, Spliced(before, offset, data)[first..next])
  }

  lemma ProgressStart(before: seq<Sector>, offset: nat, data: seq<byte>)
    requires offset + |data| <= SECTOR * |before|
    ensures Progress(before, offset, data, 0, before, [])
  {
  }

  lemma ProgressStep(before: seq<Sector>, offset: nat, data: seq<byte>, done: nat, n: nat,
                     view: seq<Sector>, log: seq<Write>, run: seq<Sector>)
    requires Progress(before, offset, data, done, view, log) && 0 < n && done + n <= |data|
    requires done + n == |data| || (offset + done + n) % SECTOR == 0
    requires var next := (offset + done) / SECTOR;
             run == Spliced(before, offset, data)[next..NextSector(offset, done + n)]
    ensures var next := (offset + done) / SECTOR;
            Progress(before, offset, data, done + n, Overlay(view, next, run), log + RunWrites(next, run))
  {
    hide Overlay, Spliced, RunWrites;
    var first, next := offset / SECTOR, (offset + done) / SECTOR;
    var after := Spliced(before, offset, data);
    assert next == NextSector(offset, done);
    OverlayAppend(before, first, after[first..next], run);
    RunWritesAppend(first, after[first..next], run);
    assert after[first..next] + run == after[first..NextSector(offset, done + n)];
  }

  lemma SectorEnd(offset: nat, done: nat, n: nat)
    requires (offset + done) % SECTOR == 0 && 0 < n
    ensures NextSector(offset, done + SECTOR * n) == (offset + done) / SECTOR + n
    ensures (offset + (done + SECTOR * n)) % SECTOR == 0
  {
  }

  lemma AlignedStep(before: seq<Sector>, offset: nat, data: seq<byte>, done: nat, n: nat,
                    view: seq<Sector>, log: seq<Write>)
    requires Progress(before, offset, data, done, view, log) && 0 < n && done + SECTOR * n <= |data|
    requires (offset + done) % SECTOR == 0
    ensures var lba, run := (offset + done) / SECTOR, SectorsOf(data[done..done + SECTOR * n], n);
            && lba + n <= |view|
            && Progress(before, offset, data, done + SECTOR * n, Overlay(view, lba, run), log + RunWrites(lba, run))
  {
    hide Overlay, Spliced, RunWrites, SectorsOf, PatchedSector;
    var lba, run := (offset + done) / SECTOR, SectorsOf(data[done..done + SECTOR * n], n);
    assert data[done..][..SECTOR * n] == data[done..done + SECTOR * n];
    FullSectors(before, offset, data, lba, n);
    SectorEnd(offset, done, n);
    assert |view| == |before|;
    hide Progress, NextSector;
    ProgressStep(before, offset, data, done, SECTOR * n, view, log, run);
  }

  lemma NextIsUntouched(before: seq<Sector>, offset: nat, data: seq<byte>, done: nat, view: seq<Sector>, log: seq<Write>)
    requires Progress(before, offset, data, done, view, log) && done < |data|
    ensures var lba := (offset + done) / SECTOR;
            lba == NextSector(offset, done) && lba < |view| == |before| && view[lba] == before[lba]
    ensures done == 0 || (offset + done) % SECTOR == 0
  {
  }

  lemma EdgeEnd(offset: nat, count: nat, done: nat, n: nat)
    requires done < count
    requires var at := (offset + done) % SECTOR;
             n == if SECTOR - at < count - done then SECTOR - at else count - done
    ensures 0 < n && NextSector(offset, done + n) == (offset + done) / SECTOR + 1
    ensures done + n == count || (offset + done + n) % SECTOR == 0
  {
  }

  lemma EdgeStep(before: seq<Sector>, offset: nat, data: seq<byte>, done: nat, n: nat,
                 view: seq<Sector>, log: seq<Write>)
    requires Progress(before, offset, data, done, view, log) && done < |data|
    requires var at := (offset + done) % SECTOR;
             n == if SECTOR - at < |data| - done then SECTOR - at else |data| - done
    ensures var lba, at := (offset + done) / SECTOR, (offset + done) % SECTOR;
            && lba < |view|
            && var run := [PatchedSector(view[lba], 0, at, data[done..done + n])];
               Progress(before, offset, data, done + n, Overlay(view, lba, run), log + RunWrites(lba, run))
  {
    hide Spliced, RunWrites, PatchedSector, Overlay, Progress, NextSector;
    var lba, at := (offset + done) / SECTOR, (offset + done) % SECTOR;
    NextIsUntouched(before, offset, data, done, view, log);
    EdgeSector(before[lba], lba, offset, data, done, at, n);
    EdgeEnd(offset, |data|, done, n);
    var run := [PatchedSector(view[lba], 0, at, data[done..done + n])];
    assert run == Spliced(before, offset, data)[lba..lba + 1];
    ProgressStep(before, offset, data, done, n, view, log, run);
  }

  lemma ProgressEnd(before: seq<Sector>, offset: nat, data: seq<byte>, view: seq<Sector>, log: seq<Write>)
    requires Progress(before, offset, data, |data|, view, log)
    ensures view == Spliced(before, offset, data) && log == CallWrites(before, offset, data)
  {
    CallWritesSplice(before, offset, data);
    if data != [] {
      ReplayRun(before, offset / SECTOR, Spliced(before, offset, data)[offset / SECTOR..SectorsUpTo(offset + |data|)]);
    }
  }
}

/** The state of usb_scsi.cpp and its two transfer loops. The device is an array of sectors whose commands succeed. */
module ScsiCache {
  import opened Basics
  import opened SectorLog

  /** Bytes that one turn of the writing loop moves when `rest` bytes are left, of which it sees 32 bits. */
  function TurnSize(rest: nat, at: nat): (n: nat)
    requires at < SECTOR
    ensures n <= rest && n <= rest % 0x1_0000_0000
    ensures n == 0 <==> rest % 0x1_0000_0000 == 0
  {
    var remaining := rest % 0x1_0000_0000;
    if at == 0 && remaining >= SECTOR then SECTOR * Min(remaining / SECTOR, CHUNK) else Min(SECTOR - at, remaining)
  }

  /** Bytes moved by so many turns of the writing loop, which ends when they are all moved. */
  function BytesMoved(count: nat, offset: nat, turns: nat): (done: nat)
    ensures done <= count
  {
    if turns == 0 then 0
    else
      var done := BytesMoved(count, offset, turns - 1);
      done + TurnSize(count - done, (offset + done) % SECTOR)
  }

  lemma LowBits(count: nat, done: nat)
    requires done <= count % 0x1_0000_0000
    ensures (count - done) % 0x1_0000_0000 == count % 0x1_0000_0000 - done
  {
  }

  lemma {:induction false} TurnsMoveBytes(count: nat, offset: nat, turns: nat)
    ensures count < 0x1_0000_0000 ==> BytesMoved(count, offset, turns) >= Min(turns, count)
    ensures BytesMoved(count, offset, turns) <= count % 0x1_0000_0000
  {
    hide TurnSize;
    if turns > 0 {
      TurnsMoveBytes(count, offset, turns - 1);
      LowBits(count, BytesMoved(count, offset, turns - 1));
    }
  }

  /** The writing loop ends exactly for calls below 4 GiB. A longer one comes to a stop short of its count. */
  lemma WriteEndsBelow4G(count: nat, offset: nat)
    ensures (exists turns: nat :: BytesMoved(count, offset, turns) == count) <==> count < 0x1_0000_0000
  {
    TurnsMoveBytes(count, offset, count);
    forall turns: nat ensures BytesMoved(count, offset, turns) <= count % 0x1_0000_0000 {
      TurnsMoveBytes(count, offset, turns);
    }
  }

  /** The sectors that one turn of the reading loop fetches, computed in 32 bits. */
  function ReadSectors(rest: nat, at: nat): nat
    requires at < SECTOR
  {
    Min((rest % 0x1_0000_0000 + at + SECTOR - 1) % 0x1_0000_0000 / SECTOR, CHUNK)
  }

  /** The bytes that it takes from them, with the 32-bit difference. */
  function ReadSize(rest: nat, at: nat): (n: nat)
    requires at < SECTOR
    ensures n <= rest && n <= rest % 0x1_0000_0000
  {
    Min(rest % 0x1_0000_0000, (SECTOR * ReadSectors(rest, at) - at) % 0x1_0000_0000)
  }

  /** All that a turn takes is in the sectors that it fetched. */
  predicate IsCovered(rest: nat, at: nat)
    requires at < SECTOR
  {
    at + ReadSize(rest, at) <= SECTOR * ReadSectors(rest, at)
  }

  /** Bytes taken by so many turns of the reading loop. */
  function BytesRead(count: nat, offset: nat, turns: nat): (done: nat)
    ensures done <= count
  {
    if turns == 0 then 0
    else
      var done := BytesRead(count, offset, turns - 1);
      done + ReadSize(count - done, (offset + done) % SECTOR)
  }

  predicate IsCoveredTurn(count: nat, offset: nat, turn: nat) {
    var done := BytesRead(count, offset, turn);
    IsCovered(count - done, (offset + done) % SECTOR)
  }

  /** The reading loop ends, and no turn takes a byte that was not fetched. */
  ghost predicate ReadDelivers(count: nat, offset: nat) {
    exists turns: nat :: DeliversIn(count, offset, turns)
  }

  predicate DeliversIn(count: nat, offset: nat, turns: nat) {
    BytesRead(count, offset, turns) == count && forall t: nat | t < turns :: IsCoveredTurn(count, offset, t)
  }

  /** The 32-bit sum of a call's first turn does not wrap around. */
  predicate ReadIsInRange(count: nat, offset: nat) {
    count == 0 || count + offset % SECTOR + SECTOR - 1 < 0x1_0000_0000
  }

  lemma SameOffsetInSector(offset: nat, sectors: nat)
    ensures (offset + SECTOR * sectors) % SECTOR == offset % SECTOR
  {
  }

  lemma SumsStayInRange(rest: nat, at: nat)
    requires at < SECTOR && 0 < rest && rest + at + SECTOR - 1 < 0x1_0000_0000
    ensures 0 < ReadSectors(rest, at) <= CHUNK && IsCovered(rest, at)
            && SECTOR * ReadSectors(rest, at) <= rest + at + SECTOR - 1
    ensures ReadSize(rest, at) == Min(rest, SECTOR * ReadSectors(rest, at) - at) > 0
  {
  }

  /** A turn leaves nothing, or goes on at the beginning of a sector. */
  lemma RestStaysInRange(rest: nat, offset: nat)
    requires rest + offset % SECTOR + SECTOR - 1 < 0x1_0000_0000 && 0 < rest
    ensures var n := ReadSize(rest, offset % SECTOR);
            n == rest || (rest - n) + (offset + n) % SECTOR + SECTOR - 1 < 0x1_0000_0000
  {
    SumsStayInRange(rest, offset % SECTOR);
    var sectors := ReadSectors(rest, offset % SECTOR);
    if ReadSize(rest, offset % SECTOR) != rest {
      assert offset + (SECTOR * sectors - offset % SECTOR) == SECTOR * (offset / SECTOR + sectors);
    }
    hide ReadSize, ReadSectors;
  }

  predicate IsOnWay(count: nat, offset: nat, done: nat) {
    done == count || (done < count && count - done + (offset + done) % SECTOR + SECTOR - 1 < 0x1_0000_0000)
  }

  lemma OneTurnOn(count: nat, offset: nat, done: nat)
    requires IsOnWay(count, offset, done)
    ensures IsCovered(count - done, (offset + done) % SECTOR)
    ensures var n := ReadSize(count - done, (offset + done) % SECTOR);
      (done < count ==> n > 0) && IsOnWay(count, offset, done + n)
  {
    hide ReadSize, ReadSectors;
    if done < count {
      SumsStayInRange(count - done, (offset + done) % SECTOR);
      RestStaysInRange(count - done, offset + done);
    } else {
      NothingIsCovered((offset + done) % SECTOR);
    }
  }

  lemma {:induction false} ReadsMoveBytes(count: nat, offset: nat, turns: nat)
    requires ReadIsInRange(count, offset)
    ensures IsOnWay(count, offset, BytesRead(count, offset, turns))
            && BytesRead(count, offset, turns) >= Min(turns, count)
    ensures forall t: nat | t < turns :: IsCoveredTurn(count, offset, t)
  {
    hide ReadSize, ReadSectors;
    if turns > 0 {
      ReadsMoveBytes(count, offset, turns - 1);
      hide IsOnWay, IsCovered;
      OneTurnOn(count, offset, BytesRead(count, offset, turns - 1));
    } else {
      assert IsOnWay(count, offset, 0);
    }
  }

  lemma NothingIsCovered(at: nat)
    requires at < SECTOR
    ensures ReadSize(0, at) == 0 && IsCovered(0, at)
  {
  }

  /** A wrapped sum fetches one sector or none. None at the beginning of a sector, and the loop stands still. */
  lemma WrappedTurn(rest: nat, at: nat)
    requires at < SECTOR && rest < 0x1_0000_0000 <= rest + at + SECTOR - 1
    ensures ReadSectors(rest, at) <= 1
    ensures ReadSectors(rest, at) == 0 && at > 0 ==> !IsCovered(rest, at)
    ensures at == 0 ==> ReadSectors(rest, at) == 0 == ReadSize(rest, at)
    ensures ReadSectors(rest, at) == 1 ==>
              ReadSize(rest, at) == SECTOR - at && rest - (SECTOR - at) + SECTOR - 1 >= 0x1_0000_0000
  {
  }

  lemma {:induction false} WrappedReadStops(count: nat, offset: nat, turns: nat)
    requires 0 < count < 0x1_0000_0000 && !ReadIsInRange(count, offset)
    requires forall t: nat | t < turns :: IsCoveredTurn(count, offset, t)
    ensures var done := BytesRead(count, offset, turns);
      done == 0 || (done == SECTOR - offset % SECTOR < count && (offset + done) % SECTOR == 0
                    && count - done + SECTOR - 1 >= 0x1_0000_0000)
  {
    hide ReadSize, ReadSectors, IsCovered;
    if turns > 0 {
      assert IsCoveredTurn(count, offset, turns - 1);
      WrappedReadStops(count, offset, turns - 1);
      var done := BytesRead(count, offset, turns - 1);
      WrappedTurn(count - done, (offset + done) % SECTOR);
    }
  }

  lemma {:induction false} LongReadStops(count: nat, offset: nat, turns: nat)
    ensures BytesRead(count, offset, turns) <= count % 0x1_0000_0000
  {
    hide ReadSize;
    if turns > 0 {
      LongReadStops(count, offset, turns - 1);
      LowBits(count, BytesRead(count, offset, turns - 1));
    }
  }

  /** The reading loop delivers what was asked for exactly if the sum of its first turn does not wrap around. */
  lemma ReadEndsInRange(count: nat, offset: nat)
    ensures ReadDelivers(count, offset) <==> ReadIsInRange(count, offset)
  {
    hide ReadSize, ReadSectors, IsCovered;
    if ReadIsInRange(count, offset) {
      ReadsMoveBytes(count, offset, count);
      assert DeliversIn(count, offset, count);
    } else if turns: nat :| DeliversIn(count, offset, turns) {
      LongReadStops(count, offset, turns);
      WrappedReadStops(count, offset, turns);
      assert false;
    }
  }

  /** What the users of the driver ask of it. */
  datatype Command =
    | Fetch(offset: nat, count: nat)
    | Store(offset: nat, data: seq<byte>)
    | Partition(sectors: nat)
    | Synchronize
    | Direct(lba: nat, run: seq<Sector>)

  /** A plain disk with a partition offset: what the driver is meant to be. It is settled while nothing was stored
      since it was last read from or synchronized. */
  datatype FlatDisk = FlatDisk(sectors: seq<Sector>, partition: nat, log: seq<Write>, settled: bool) {
    function Start(offset: nat): nat {
      offset + SECTOR * partition
    }

    /** Calls stay inside the disk, and in the range where the loops end. Writing past the cache is for a settled disk. */
    predicate Admits(c: Command) {
      match c
      case Fetch(offset, count) => ReadIsInRange(count, offset) && Start(offset) + count <= SECTOR * |sectors|
      case Store(offset, data) => |data| < 0x1_0000_0000 && Start(offset) + |data| <= SECTOR * |sectors|
      case Partition(_) => true
      case Synchronize => true
      case Direct(lba, run) => settled && lba + |run| <= |sectors|
    }

    function Do(c: Command): FlatDisk
      requires Admits(c)
    {
      match c
      case Fetch(_, count) => this.(settled := settled || count > 0)
      case Store(offset, data) =>
        FlatDisk(Spliced(sectors, Start(offset), data), partition, log + CallWrites(sectors, Start(offset), data),
                 settled && data == [])
      case Partition(start) => this.(partition := start)
      case Synchronize => this.(settled := true)
      case Direct(lba, run) => FlatDisk(Overlay(sectors, lba, run), partition, log + RunWrites(lba, run), settled)
    }

    function Answer(c: Command): seq<byte>
      requires Admits(c)
    {
      if c.Fetch?
      then Extract(sectors, Start(c.offset), c.count)
      else []
    }

    predicate AdmitsAll(cs: seq<Command>)
      decreases |cs|
    {
      cs == [] || (Admits(cs[0]) && Do(cs[0]).AdmitsAll(cs[1..]))
    }

    function DoAll(cs: seq<Command>): FlatDisk
      requires AdmitsAll(cs)
      decreases |cs|
    {
      if cs == [] then this else Do(cs[0]).DoAll(cs[1..])
    }

    function Answers(cs: seq<Command>): seq<seq<byte>>
      requires AdmitsAll(cs)
      decreases |cs|
    {
      if cs == [] then [] else [Answer(cs[0])] + Do(cs[0]).Answers(cs[1..])
    }
  }

  class UsbDisk {
    var disk: seq<Sector>
    var driveOffset: nat
    var cache: array?<byte>
    var cacheLba: nat
    var cacheSectors: nat
    const bounce: array<byte>

    ghost const initial: seq<Sector>
    ghost var images: seq<seq<Sector>>
    ghost var log: seq<Write>
    ghost var settled: bool        // no write since the cache was last flushed

    ghost predicate Valid()
      reads this, cache
    {
      && bounce.Length == SECTOR * CHUNK && |disk| <= 0x1_0000_0000
      && (cache != null ==> cache != bounce && cache.Length == SECTOR * CHUNK)
      && (cacheSectors > 0 ==> cache != null)
      && cacheSectors <= CHUNK && cacheLba + cacheSectors <= |disk|
      && |images| > 0 && images[|images| - 1] == disk
      && Ordered(initial, images, log, cacheLba, Run())
    }

    /** The state between two commands. */
    ghost predicate Ready()
      reads this, cache
    {
      Valid() && (settled ==> cacheSectors == 0)
    }

    /** The sectors waiting in the cache. */
    ghost function Run(): (run: seq<Sector>)
      reads this, cache
      requires cacheSectors > 0 ==> cache != null && SECTOR * cacheSectors <= cache.Length
      ensures |run| == cacheSectors
    {
      if cacheSectors == 0 then [] else SectorsOf(cache[..SECTOR * cacheSectors], cacheSectors)
    }

    /** What the disk will hold once the cache is flushed. */
    ghost function View(): (view: seq<Sector>)
      reads this, cache
      requires Valid()
      ensures |view| == |disk|
    {
      Overlay(disk, cacheLba, Run())
    }

    constructor (sectors: seq<Sector>)
      requires |sectors| <= 0x1_0000_0000
      ensures Ready() && disk == initial == sectors && View() == sectors && log == [] && driveOffset == 0 && settled
      ensures fresh(bounce) && cache == null
    {
      disk, initial, settled := sectors, sectors, true;
      driveOffset, cacheLba, cacheSectors, cache := 0, 0, 0, null;
      bounce := new byte[SECTOR * CHUNK];
      images, log := [sectors], [];
    }

    /** READ(10) into the bounce buffer. */
    method Read10(lba: nat, n: nat)
      requires 0 < n <= CHUNK && lba + n <= |disk| && bounce.Length == SECTOR * CHUNK
      modifies bounce
      ensures forall j | 0 <= j < SECTOR * n :: bounce[j] == DiskByte(disk, SECTOR * lba + j)
    {
      forall j | 0 <= j < SECTOR * n {
        bounce[j] := DiskByte(disk, SECTOR * lba + j);
      }
    }

    /** WRITE(10): the sectors reach the medium one after the other. */
    method Write10(lba: nat, run: seq<Sector>)
      modifies `disk, `images
      ensures disk == Overlay(old(disk), lba, run)
      ensures images == old(images) + RunImages(old(disk), lba, run)
    {
      images := images + RunImages(disk, lba, run);
      disk := Overlay(disk, lba, run);
    }

    method Flush()
      requires Valid()
      modifies `disk, `images, `cacheSectors
      ensures Valid() && cacheSectors == 0 && disk == old(View())
    {
      hide Ordered, RunImages, SectorsOf, Overlay;
      FlushKeepsOrder(initial, images, log, cacheLba, Run(), cacheLba);
      if cacheSectors == 0 || cache == null {
        return;
      }
      Write10(cacheLba, SectorsOf(cache[..SECTOR * cacheSectors], cacheSectors));
      cacheSectors := 0;
    }

    /** The memory copy behind the cached run. */
    method Append(n: nat, data: seq<byte>)
      requires Valid() && cache != null
      requires cacheSectors + n <= CHUNK && |data| == SECTOR * n && cacheLba + cacheSectors + n <= |disk|
      modifies `cacheSectors, `log, cache
      ensures Valid() && cacheSectors == old(cacheSectors) + n
      ensures View() == Overlay(old(View()), old(cacheLba + cacheSectors), SectorsOf(data, n))
      ensures log == old(log) + RunWrites(old(cacheLba + cacheSectors), SectorsOf(data, n))
    {
      hide Ordered, SectorsOf, Overlay, RunWrites;
      ghost var before, sectors := Run(), SectorsOf(data, n);
      ghost var bytes := cache[..SECTOR * cacheSectors];
      OverlayAppend(disk, cacheLba, before, sectors);
      AppendKeepsOrder(initial, images, log, cacheLba, before, sectors);
      log := log + RunWrites(cacheLba + cacheSectors, sectors);
      var at := SECTOR * cacheSectors;
      forall j | 0 <= j < |data| {
        cache[at + j] := data[j];
      }
      cacheSectors := cacheSectors + n;
      SectorsOfAppend(bytes, old(cacheSectors), data, n);
      assert cache[..SECTOR * cacheSectors] == bytes + data;
      assert Run() == before + sectors;
    }

    /** Flushes, and points the empty cache, allocated at its first use, at a new run. */
    method StartRun(lba: nat)
      requires Valid() && lba <= |disk|
      modifies `disk, `images, `cacheSectors, `cacheLba, `cache
      ensures Valid() && cacheSectors == 0 && cacheLba == lba && View() == old(View())
      ensures cache != null && (cache == old(cache) || fresh(cache))
    {
      hide Ordered, Overlay;
      Flush();
      if cache == null {
        cache := new byte[SECTOR * CHUNK];
      }
      EmptyRunAnywhere(initial, images, log, cacheLba, lba);
      cacheLba := lba;
      OverlayNothing(disk, lba);
    }

    /** Whole sectors go into the cache: appended to the run if they continue it and fit, else as a new run. */
    method CacheSectors(lba: nat, n: nat, data: seq<byte>)
      requires Valid() && 0 < n <= CHUNK && |data| == SECTOR * n && lba + n <= |disk|
      modifies `disk, `images, `log, `cache, `cacheLba, `cacheSectors, cache
      ensures Valid() && (cache == old(cache) || fresh(cache))
      ensures View() == Overlay(old(View()), lba, SectorsOf(data, n))
      ensures log == old(log) + RunWrites(lba, SectorsOf(data, n))
    {
      hide Ordered, SectorsOf, Overlay, RunWrites, UsbDisk.Run, UsbDisk.View;
      var canAdd := cacheSectors > 0 && lba == cacheLba + cacheSectors && cacheSectors + n <= CHUNK;
      if canAdd {
        Append(n, data);
      } else {
        StartRun(lba);
        Append(n, data);
      }
    }

    /** Fetches a sector and changes the bytes [at, at + |part|) of it, in the bounce buffer. */
    method ReadModify(lba: nat, at: nat, part: seq<byte>) returns (sector: Sector)
      requires lba < |disk| && at + |part| <= SECTOR && bounce.Length == SECTOR * CHUNK
      modifies bounce
      ensures sector == PatchedSector(disk[lba], 0, at, part)
    {
      Read10(lba, 1);
      forall j | 0 <= j < SECTOR ensures bounce[j] == disk[lba][j] {
        ByteOfSector(disk, lba, j);
      }
      forall j | 0 <= j < |part| {
        bounce[at + j] := part[j];
      }
      sector := bounce[..SECTOR];
    }

    /** A sector written past the empty cache. */
    method WriteThrough(lba: nat, sector: Sector)
      requires Valid() && cacheSectors == 0
      modifies `disk, `images, `log
      ensures Valid() && View() == Overlay(old(View()), lba, [sector])
      ensures log == old(log) + RunWrites(lba, [sector])
    {
      hide Ordered, Overlay, RunWrites, RunImages;
      DirectWriteKeepsOrder(initial, images, log, lba, [sector], cacheLba);
      OverlayNothing(disk, cacheLba);
      log := log + RunWrites(lba, [sector]);
      Write10(lba, [sector]);
      OverlayNothing(disk, cacheLba);
    }

    /** Part of a sector goes straight to the disk, by read-modify-write behind a flush. */
    method WriteEdge(lba: nat, at: nat, part: seq<byte>)
      requires Valid() && lba < |disk| && at + |part| <= SECTOR
      modifies `disk, `images, `cacheSectors, `log, bounce
      ensures Valid() && cacheSectors == 0
      ensures View() == Overlay(old(View()), lba, [PatchedSector(old(View())[lba], 0, at, part)])
      ensures log == old(log) + RunWrites(lba, [PatchedSector(old(View())[lba], 0, at, part)])
    {
      hide Ordered, Overlay, RunWrites, RunImages, PatchedSector, UsbDisk.Run;
      Flush();
      OverlayNothing(disk, cacheLba);
      var sector := ReadModify(lba, at, part);
      WriteThrough(lba, sector);
    }

    /** One turn of the loop for writing: n more bytes of the data, with their sector writes. */
    method WriteStep(data: seq<byte>, offset: nat, done: nat, ghost before: seq<Sector>, ghost tail: seq<Write>)
      returns (n: nat, ghost writes: seq<Write>)
      requires Valid() && done < |data| < 0x1_0000_0000
      requires Progress(before, offset, data, done, View(), tail)
      modifies `disk, `images, `log, `cache, `cacheLba, `cacheSectors, cache, bounce
      ensures Valid() && (cache == old(cache) || fresh(cache))
      ensures 0 < n == TurnSize(|data| - done, (offset + done) % SECTOR) <= |data| - done
      ensures log == old(log) + writes && Progress(before, offset, data, done + n, View(), tail + writes)
    {
      hide Ordered, Overlay, RunWrites, PatchedSector, SectorsOf, Progress, UsbDisk.Run, UsbDisk.View;
      var lba, at := (offset + done) / SECTOR, (offset + done) % SECTOR;
      var remaining := (|data| - done) % 0x1_0000_0000;
      ghost var view := View();
      if at == 0 && remaining >= SECTOR {
        var sectors := Min(remaining / SECTOR, CHUNK);
        n := SECTOR * sectors;
        AlignedStep(before, offset, data, done, sectors, view, tail);
        writes := RunWrites(lba, SectorsOf(data[done..done + n], sectors));
        CacheSectors(lba, sectors, data[done..done + n]);
      } else {
        n := Min(SECTOR - at, remaining);
        EdgeStep(before, offset, data, done, n, view, tail);
        writes := RunWrites(lba, [PatchedSector(view[lba], 0, at, data[done..done + n])]);
        WriteEdge(lba, at, data[done..done + n]);
      }
    }

    /**
     * scsi_io_internal for writing. Of the byte view exactly [offset, offset + |data|) changes, and the log grows
     * by one write for each touched sector, in ascending order.
     */
    method Write(data: seq<byte>, offset: nat) returns (done: nat)
      requires Valid() && |data| < 0x1_0000_0000 && offset + SECTOR * driveOffset + |data| <= SECTOR * |disk|
      modifies `disk, `images, `log, `cache, `cacheLba, `cacheSectors, cache, bounce
      ensures Valid() && done == |data| && (cache == old(cache) || fresh(cache))
      ensures data == [] ==> cacheSectors == old(cacheSectors)
      ensures View() == Spliced(old(View()), offset + SECTOR * driveOffset, data)
      ensures log == old(log) + CallWrites(old(View()), offset + SECTOR * driveOffset, data)
    {
      hide Ordered, Progress, Spliced, CallWrites, UsbDisk.Run, UsbDisk.View;
      var actual := offset + SECTOR * driveOffset;
      ghost var before := View();
      ghost var tail: seq<Write> := [];
      ProgressStart(before, actual, data);
      done := 0;
      while done < |data|
        invariant Valid() && done <= |data| && (cache == old(cache) || fresh(cache))
        invariant done == 0 ==> cacheSectors == old(cacheSectors)
        invariant log == old(log) + tail && Progress(before, actual, data, done, View(), tail)
      {
        var n, writes := WriteStep(data, actual, done, before, tail);
        tail := tail + writes;
        done := done + n;
      }
      ProgressEnd(before, actual, data, View(), tail);
    }

    /** One turn of the loop for reading: through the bounce buffer, behind a flush. */
    method ReadStep(buf: array<byte>, count: nat, offset: nat, done: nat) returns (n: nat)
      requires Valid() && buf != bounce && buf != cache
      requires done < count <= buf.Length && offset + count <= SECTOR * |disk|
      requires count - done + (offset + done) % SECTOR + SECTOR - 1 < 0x1_0000_0000
      modifies `disk, `images, `cacheSectors, bounce, buf
      ensures Valid() && cacheSectors == 0 && disk == old(View())
      ensures 0 < n == ReadSize(count - done, (offset + done) % SECTOR) <= count - done
      ensures forall j | done <= j < done + n :: buf[j] == DiskByte(disk, offset + j)
      ensures forall j | 0 <= j < buf.Length && !(done <= j < done + n) :: buf[j] == old(buf[j])
    {
      hide Ordered, Overlay, UsbDisk.Run, DiskByte, ReadSectors, ReadSize;
      var lba, at := (offset + done) / SECTOR, (offset + done) % SECTOR;
      SumsStayInRange(count - done, at);
      Flush();
      var sectors := ReadSectors(count - done, at);
      Read10(lba, sectors);
      n := ReadSize(count - done, at);
      forall j | 0 <= j < n {
        buf[done + j] := bounce[at + j];
      }
      assert forall j | done <= j < done + n :: buf[j] == bounce[at + (j - done)];
    }

    /** scsi_io_internal for reading: the bytes of the view, none of which changes. */
    method Read(buf: array<byte>, count: nat, offset: nat) returns (done: nat)
      requires Valid() && buf != bounce && buf != cache && count <= buf.Length
      requires ReadIsInRange(count, offset) && offset + SECTOR * driveOffset + count <= SECTOR * |disk|
      modifies `disk, `images, `cacheSectors, bounce, buf
      ensures Valid() && View() == old(View()) && done == count
      ensures cacheSectors == if count == 0 then old(cacheSectors) else 0
      ensures forall j | 0 <= j < count :: buf[j] == DiskByte(old(View()), offset + SECTOR * driveOffset + j)
      ensures forall j | count <= j < buf.Length :: buf[j] == old(buf[j])
    {
      hide Ordered, Overlay, UsbDisk.Run, DiskByte, ReadSize;
      var actual := offset + SECTOR * driveOffset;
      SameOffsetInSector(offset, driveOffset);
      ghost var view := View();
      done := 0;
      while done < count
        invariant Valid() && View() == view && done <= count
        invariant cacheSectors == if done == 0 then old(cacheSectors) else 0
        invariant done == count || count - done + (actual + done) % SECTOR + SECTOR - 1 < 0x1_0000_0000
        invariant forall j | 0 <= j < done :: buf[j] == DiskByte(view, actual + j)
        invariant forall j | done <= j < buf.Length :: buf[j] == old(buf[j])
      {
        RestStaysInRange(count - done, actual + done);
        var n := ReadStep(buf, count, actual, done);
        OverlayNothing(disk, cacheLba);
        done := done + n;
      }
    }

    /** usb_scsi_set_partition_offset. */
    method SetPartitionOffset(sectors: nat)
      requires Valid()
      modifies `driveOffset
      ensures Valid() && driveOffset == sectors && View() == old(View())
    {
      driveOffset := sectors;
    }

    /** usb_scsi_sync: every write of the log has reached the disk. */
    method Sync()
      requires Valid()
      modifies `disk, `images, `cacheSectors
      ensures Valid() && View() == old(View()) == disk == Replay(initial, log) && |images| == |log| + 1
      ensures cacheSectors == 0
    {
      hide Overlay, Replay, SectorsOf;
      Flush();
      OverlayNothing(disk, cacheLba);
      ViewIsReplay(initial, images, log, cacheLba, Run());
      assert |log[|images| - 1..]| == 0;
    }

    /**
     * WRITE(10) past the cache, as the partition table writers and the wipes send it. On an empty cache it is one more
     * run of the log. In general, after each sector the medium is what all writes so far amount to, exactly if what is
     * cached would change no sector but the first; and flushing what is cached then leaves what all writes amount to,
     * exactly if it agrees with these sectors where they overlap.
     */
    method WriteDirect(lba: nat, data: seq<Sector>)
      requires Valid() && lba + |data| <= |disk|
      modifies `disk, `images, `log
      ensures disk == Overlay(old(disk), lba, data) && log == old(log) + RunWrites(lba, data)
      ensures images == old(images) + RunImages(old(disk), lba, data)
      ensures cacheSectors == 0 ==> Valid() && View() == Overlay(old(View()), lba, data)
      ensures (forall j: nat | 0 < j <= |data| ::
                 images[|old(images)| - 1 + j] == Replay(initial, old(log) + RunWrites(lba, data[..j])))
         <==> data == [] || ChangesAtMost(old(disk), cacheLba, Run(), lba)
      ensures Overlay(disk, cacheLba, Run()) == Replay(initial, log) <==> Agree(cacheLba, Run(), lba, data)
    {
      hide Ordered, Overlay, RunWrites, ChangesAtMost, Agree, Replay, UsbDisk.Run, RunImages;
      ghost var before, run, lba0 := images, Run(), cacheLba;
      DirectWriteInStep(initial, before, log, lba0, run, lba, data);
      DirectWriteStays(initial, before, log, lba0, run, lba, data);
      if cacheSectors == 0 {
        DirectWriteKeepsOrder(initial, before, log, lba, data, lba0);
        OverlayNothing(disk, lba0);
        OverlayNothing(Overlay(disk, lba, data), lba0);
      }
      ImagesOfRun(before, lba, data);
      SendDirect(lba, data);
    }

    method SendDirect(lba: nat, data: seq<Sector>)
      requires Valid()
      modifies `disk, `images, `log
      ensures disk == Overlay(old(disk), lba, data) && log == old(log) + RunWrites(lba, data)
      ensures images == old(images) + RunImages(old(disk), lba, data) && Run() == old(Run())
    {
      hide Ordered, Overlay, RunWrites, RunImages, SectorsOf;
      log := log + RunWrites(lba, data);
      Write10(lba, data);
    }

    /** A note that the cache is empty, or may not be; nothing else changes. */
    ghost method Settle(now: bool)
      requires Valid()
      modifies `settled
      ensures Valid() && settled == now && View() == old(View())
    {
      hide Ordered, Overlay, SectorsOf;
      settled := now;
    }

    /** The flat disk this one stands for. */
    ghost function Flat(): FlatDisk
      reads this, cache
      requires Valid()
    {
      FlatDisk(View(), driveOffset, log, settled)
    }

    /** One command, answered as by the flat disk. */
    method Perform(c: Command) returns (answer: seq<byte>)
      requires Ready() && Flat().Admits(c)
      modifies this, cache, bounce
      ensures Ready() && (cache == old(cache) || fresh(cache))
      ensures Flat() == old(Flat()).Do(c) && answer == old(Flat()).Answer(c)
    {
      hide Ordered, Overlay, Spliced, CallWrites, DiskByte, UsbDisk.Run, UsbDisk.View;
      answer := [];
      match c {
        case Fetch(offset, count) =>
          var buf := new byte[count];
          var done := Read(buf, count, offset);
          answer := buf[..];
          Settle(settled || count > 0);
        case Store(offset, data) =>
          var done := Write(data, offset);
          Settle(settled && data == []);
        case Partition(sectors) =>
          SetPartitionOffset(sectors);
        case Synchronize =>
          Sync();
          Settle(true);
        case Direct(lba, run) =>
          WriteDirect(lba, run);
      }
    }

    /**
     * Any run of commands is answered as by the flat disk. Whatever is on the medium at the end is the initial disk
     * after a prefix of the run's sector writes, and so was every image before.
     */
    method PerformAll(cs: seq<Command>) returns (answers: seq<seq<byte>>)
      requires Ready() && Flat().AdmitsAll(cs)
      modifies this, cache, bounce
      ensures Ready() && Flat() == old(Flat()).DoAll(cs) && answers == old(Flat()).Answers(cs)
      ensures forall k | 0 <= k < |images| :: k <= |log| && images[k] == Replay(initial, log[..k])
      ensures disk == images[|images| - 1] && Flat().sectors == Replay(initial, log)
      decreases |cs|
    {
      hide Overlay, Replay, UsbDisk.Run, FlatDisk.Do, FlatDisk.Answer;
      if cs == [] {
        answers := [];
        ViewIsReplay(initial, images, log, cacheLba, Run());
      } else {
        var answer := Perform(cs[0]);
        var rest := PerformAll(cs[1..]);
        answers := [answer] + rest;
      }
    }
  }
}
