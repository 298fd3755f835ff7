/** `DiskInventory` and its nested `RawDiskData` / `DiskData`: per-device block-device
    readings, their wrap-corrected deltas and the store of the last reading per device. */
module Disk {

  import opened Wrappers
  import opened Errors
  import opened Text
  import opened WrappingCounter

  /** One reading of `/sys/class/block/<dev>/stat`, with the sector size known at that time. */
  datatype RawDiskData = RawDiskData(
    device: string,
    time: int,
    readCount: int,
    readSectors: int,
    writeCount: int,
    writeSectors: int,
    sectorSize: Option<int>)

  /** The change between two readings of the same device. */
  datatype DiskData = DiskData(
    device: string,
    deltaTime: int,
    readCount: int,
    bytesRead: Option<int>,
    writeCount: int,
    bytesWritten: Option<int>)

  /** Wrap-corrected sector count times the sector size, or `nil` when the size is unknown. */
  function SectorBytes(m: nat, now: int, before: int, sectorSize: Option<int>): Option<int>
    requires m > 0
  {
    if sectorSize.None? then None else Some(SubWithWrap(m, now, before) * sectorSize.value)
  }

  /** `RawDiskData#-`: `cur - prev`. */
  function Diff(m: nat, cur: RawDiskData, prev: RawDiskData): (r: Result<DiskData, Error>)
    requires m > 0
    ensures r.Failure? <==> cur.device != prev.device
    ensures r.Failure? ==> r.error == ArgumentError(cur.device + " != " + prev.device)
    ensures r.Success? ==> r.value.device == cur.device
    ensures r.Success? ==> 0 <= r.value.readCount < m && 0 <= r.value.writeCount < m
    ensures r.Success? ==> (r.value.bytesRead.Some? <==> cur.sectorSize.Some?)
    ensures r.Success? ==> (r.value.bytesWritten.Some? <==> cur.sectorSize.Some?)
  {
    if cur.device != prev.device then
      Failure(ArgumentError(cur.device + " != " + prev.device))
    else
      Success(DiskData(
        cur.device,
        cur.time - prev.time,
        SubWithWrap(m, cur.readCount, prev.readCount),
        SectorBytes(m, cur.readSectors, prev.readSectors, cur.sectorSize),
        SubWithWrap(m, cur.writeCount, prev.writeCount),
        SectorBytes(m, cur.writeSectors, prev.writeSectors, cur.sectorSize)))
  }

  /** What a successful delta means: added to the older reading, each count gives back the
      newer one (modulo the counter width), and each byte field is such an increase of the
      sector count times the newer reading's sector size. */
  lemma DiffRecoversCurrent(m: nat, cur: RawDiskData, prev: RawDiskData)
    requires m > 0
    requires Diff(m, cur, prev).Success?
    ensures var d := Diff(m, cur, prev).value;
      && prev.time + d.deltaTime == cur.time
      && IsIncrease(m, cur.readCount, prev.readCount, d.readCount)
      && IsIncrease(m, cur.writeCount, prev.writeCount, d.writeCount)
      && (d.bytesRead.Some? ==> exists k :: IsIncrease(m, cur.readSectors, prev.readSectors, k)
                                         && d.bytesRead.value == k * cur.sectorSize.value)
      && (d.bytesWritten.Some? ==> exists k :: IsIncrease(m, cur.writeSectors, prev.writeSectors, k)
                                            && d.bytesWritten.value == k * cur.sectorSize.value)
  {
    SubWithWrapUndoes(m, cur.readCount, prev.readCount);
    SubWithWrapUndoes(m, cur.writeCount, prev.writeCount);
    SubWithWrapUndoes(m, cur.readSectors, prev.readSectors);
    SubWithWrapUndoes(m, cur.writeSectors, prev.writeSectors);
    var kr := SubWithWrap(m, cur.readSectors, prev.readSectors);
    var kw := SubWithWrap(m, cur.writeSectors, prev.writeSectors);
    assert IsIncrease(m, cur.readSectors, prev.readSectors, kr);
    assert IsIncrease(m, cur.writeSectors, prev.writeSectors, kw);
  }

  /** The stat file as the host presents it: the time it was read and its first line, if any. */
  datatype StatFile = StatFile(time: int, firstLine: Option<string>)

  /** The stat counters used: fields 1, 3, 5 and 7 of the line (reads completed, sectors read,
      writes completed, sectors written). */
  function StatReading(dev: string, time: int, line: string, sectorSize: Option<int>): RawDiskData
  {
    var w := Words(line);
    RawDiskData(dev, time, FieldToI(w, 0), FieldToI(w, 2), FieldToI(w, 4), FieldToI(w, 6), sectorSize)
  }

  /** `get_disk_data`: a missing stat file makes `File.open` raise; an empty one raises
      "is empty". */
  function ReadDisk(dev: string, stats: map<string, StatFile>, sectorSize: Option<int>): (r: Result<RawDiskData, Error>)
    ensures r.Success? <==> dev in stats && stats[dev].firstLine.Some?
    ensures r.Success? ==> r.value.device == dev && r.value.time == stats[dev].time
    ensures r.Success? ==> r.value.sectorSize == sectorSize
    ensures r.Success? ==> var w := Words(stats[dev].firstLine.value);
              && r.value.readCount == FieldToI(w, 0) && r.value.readSectors == FieldToI(w, 2)
              && r.value.writeCount == FieldToI(w, 4) && r.value.writeSectors == FieldToI(w, 6)
  {
    if dev !in stats then Failure(IoFailure("/sys/class/block/" + dev + "/stat: cannot open"))
    else if stats[dev].firstLine.None? then Failure(Unavailable("/sys/class/block/" + dev + "/stat: is empty"))
    else Success(StatReading(dev, stats[dev].time, stats[dev].firstLine.value, sectorSize))
  }

  /** A stat line whose first seven fields are decimal counters reads back as those counters:
      reads completed, sectors read, writes completed and sectors written are fields 1, 3, 5
      and 7; fields 2, 4 and 6 (merges and milliseconds) are ignored. */
  lemma StatLineRoundTrip(dev: string, time: int, sectorSize: Option<int>,
                          readsDone: nat, readMerges: nat, readSectors: nat, readMs: nat,
                          writesDone: nat, writeMerges: nat, writeSectors: nat)
    ensures var line := Unwords([DecimalString(readsDone), DecimalString(readMerges), DecimalString(readSectors),
                                 DecimalString(readMs), DecimalString(writesDone), DecimalString(writeMerges),
                                 DecimalString(writeSectors)]);
      ReadDisk(dev, map[dev := StatFile(time, Some(line))], sectorSize)
        == Success(RawDiskData(dev, time, readsDone, readSectors, writesDone, writeSectors, sectorSize))
  {
    var fields := [DecimalString(readsDone), DecimalString(readMerges), DecimalString(readSectors),
                   DecimalString(readMs), DecimalString(writesDone), DecimalString(writeMerges),
                   DecimalString(writeSectors)];
    DecimalIsWord(readsDone);
    DecimalIsWord(readMerges);
    DecimalIsWord(readSectors);
    DecimalIsWord(readMs);
    DecimalIsWord(writesDone);
    DecimalIsWord(writeMerges);
    DecimalIsWord(writeSectors);
    WordsUnwords(fields);
    var line := Unwords(fields);
    var w := Words(line);
    assert w == fields;
    assert FieldToI(w, 0) == readsDone by { DecimalParses(readsDone); }
    assert FieldToI(w, 2) == readSectors by { DecimalParses(readSectors); }
    assert FieldToI(w, 4) == writesDone by { DecimalParses(writesDone); }
    assert FieldToI(w, 6) == writeSectors by { DecimalParses(writeSectors); }
    assert StatReading(dev, time, line, sectorSize)
        == RawDiskData(dev, time, readsDone, readSectors, writesDone, writeSectors, sectorSize);
  }

  /** One data row of `lsblk -sd -oNAME,LOG-SEC` names `dev` when it has at least two words,
      the first being `dev`, and `dev` is among the requested devices (all when none is given). */
  predicate RowNames(row: string, devices: seq<string>, dev: string)
  {
    var s := Words(row);
    |s| >= 2 && s[0] == dev && (|devices| == 0 || dev in devices)
  }

  /** The loop over the `lsblk` data rows: each accepted row records its second word's
      `to_i` under its first word, so a later row for the same device wins. */
  function SizeRows(rows: seq<string>, devices: seq<string>): (sizes: map<string, int>)
  {
    if |rows| == 0 then map[]
    else
      var before := SizeRows(rows[..|rows| - 1], devices);
      var s := Words(rows[|rows| - 1]);
      if |s| < 2 || !(|devices| == 0 || s[0] in devices) then before
      else before[s[0] := ToI(s[1])]
  }

  /** A device has a sector size exactly when some data row names it. */
  lemma {:induction false} SizeRowsKeys(rows: seq<string>, devices: seq<string>, dev: string)
    ensures dev in SizeRows(rows, devices) <==> exists i :: 0 <= i < |rows| && RowNames(rows[i], devices, dev)
  {
    if |rows| > 0 {
      var init := rows[..|rows| - 1];
      SizeRowsKeys(init, devices, dev);
      if exists i :: 0 <= i < |init| && RowNames(init[i], devices, dev) {
        var i :| 0 <= i < |init| && RowNames(init[i], devices, dev);
        assert rows[i] == init[i];
      }
      if exists i :: 0 <= i < |rows| && RowNames(rows[i], devices, dev) {
        var i :| 0 <= i < |rows| && RowNames(rows[i], devices, dev);
        if i < |rows| - 1 {
          assert init[i] == rows[i];
        }
      }
    }
  }

  /** The recorded size is the `to_i` of the second word of the last row that names the device. */
  lemma {:induction false} SizeRowsLast(rows: seq<string>, devices: seq<string>, dev: string)
    ensures dev in SizeRows(rows, devices) ==>
              exists i :: 0 <= i < |rows| && RowNames(rows[i], devices, dev)
                          && (forall j :: i < j < |rows| ==> !RowNames(rows[j], devices, dev))
                          && SizeRows(rows, devices)[dev] == ToI(Words(rows[i])[1])
  {
    if |rows| > 0 && dev in SizeRows(rows, devices) {
      var last := |rows| - 1;
      var init := rows[..last];
      if !RowNames(rows[last], devices, dev) {
        assert dev in SizeRows(init, devices) && SizeRows(rows, devices)[dev] == SizeRows(init, devices)[dev];
        SizeRowsLast(init, devices, dev);
        var i :| 0 <= i < |init| && RowNames(init[i], devices, dev)
                 && (forall j :: i < j < |init| ==> !RowNames(init[j], devices, dev))
                 && SizeRows(init, devices)[dev] == ToI(Words(init[i])[1]);
        assert rows[i] == init[i];
        assert forall j :: i < j < last ==> rows[j] == init[j];
      }
    }
  }

  /** The data rows of the `lsblk` output: every line after the header, none when `lsblk`
      could not be run. */
  function DataRows(lsblk: Option<seq<string>>): seq<string>
  {
    if lsblk.None? || |lsblk.value| == 0 then [] else lsblk.value[1..]
  }

  /** `get_sector_sizes(*devices)`: the header line is skipped; a missing `lsblk`
      (`Errno::ENOENT`, the `None` output) yields no sizes at all. */
  function SectorSizes(lsblk: Option<seq<string>>, devices: seq<string>): (sizes: map<string, int>)
    ensures lsblk.None? ==> sizes == map[]
    ensures forall d :: d in sizes <==> exists i :: 0 <= i < |DataRows(lsblk)| && RowNames(DataRows(lsblk)[i], devices, d)
    ensures forall d :: d in sizes ==>
              exists i :: 0 <= i < |DataRows(lsblk)| && RowNames(DataRows(lsblk)[i], devices, d)
                          && (forall j :: i < j < |DataRows(lsblk)| ==> !RowNames(DataRows(lsblk)[j], devices, d))
                          && sizes[d] == ToI(Words(DataRows(lsblk)[i])[1])
  {
    var rows := DataRows(lsblk);
    var sizes := SizeRows(rows, devices);
    assert forall d :: d in sizes <==> exists i :: 0 <= i < |rows| && RowNames(rows[i], devices, d) by {
      forall d {
        SizeRowsKeys(rows, devices, d);
      }
    }
    assert forall d :: d in sizes ==>
             exists i :: 0 <= i < |rows| && RowNames(rows[i], devices, d)
                         && (forall j :: i < j < |rows| ==> !RowNames(rows[j], devices, d))
                         && sizes[d] == ToI(Words(rows[i])[1]) by {
      forall d | d in sizes {
        SizeRowsLast(rows, devices, d);
      }
    }
    sizes
  }

  /** `get_sector_size(dev)`: the size on the last `lsblk` row for `dev`, or `nil`. */
  function SectorSize(lsblk: Option<seq<string>>, dev: string): (r: Option<int>)
    ensures r.Some? <==> exists i :: 0 <= i < |DataRows(lsblk)| && RowNames(DataRows(lsblk)[i], [dev], dev)
    ensures r.Some? ==>
              exists i :: 0 <= i < |DataRows(lsblk)| && RowNames(DataRows(lsblk)[i], [dev], dev)
                          && (forall j :: i < j < |DataRows(lsblk)| ==> !RowNames(DataRows(lsblk)[j], [dev], dev))
                          && r.value == ToI(Words(DataRows(lsblk)[i])[1])
  {
    Get(SectorSizes(lsblk, [dev]), dev)
  }

  /** Every saved reading is filed under its own device name. */
  ghost predicate WellKeyed(saved: map<string, RawDiskData>)
  {
    forall d :: d in saved ==> saved[d].device == d
  }

  /** `DiskInventory`: the `@sector_sizes` cache and the last reading per device. */
  datatype Inventory = Inventory(sectorSizes: map<string, int>, saved: map<string, RawDiskData>)

  /** `DiskInventory#baseline`: the cache is replaced by every size `lsblk` lists and the
      store by one fresh reading per listed device; an unreadable stat file raises. */
  function Baseline(lsblk: Option<seq<string>>, stats: map<string, StatFile>): (r: Result<Inventory, Error>)
    ensures var sizes := SectorSizes(lsblk, []);
      r.Success? <==> forall d :: d in sizes ==> ReadDisk(d, stats, Some(sizes[d])).Success?
    ensures r.Success? ==> r.value.sectorSizes == SectorSizes(lsblk, [])
    ensures r.Success? ==> r.value.saved.Keys == r.value.sectorSizes.Keys
    ensures r.Success? ==> WellKeyed(r.value.saved)
    ensures r.Success? ==> forall d :: d in r.value.saved ==>
              r.value.saved[d].sectorSize == Some(r.value.sectorSizes[d])
              && r.value.saved[d].time == stats[d].time
              && r.value.saved[d] == ReadDisk(d, stats, Some(r.value.sectorSizes[d])).value
  {
    var sizes := SectorSizes(lsblk, []);
    if forall d :: d in sizes ==> ReadDisk(d, stats, Some(sizes[d])).Success? then
      Success(Inventory(sizes, map d | d in sizes :: ReadDisk(d, stats, Some(sizes[d])).value))
    else
      Failure(IoFailure("a listed block device has no readable stat file"))
  }

  /** `DiskInventory#get_disk_stats`: read `dev`, swap the reading into the store, and
      answer the delta against the reading it replaced. */
  function GetDiskStats(inv: Inventory, m: nat, dev: string, lsblk: Option<seq<string>>,
                        stats: map<string, StatFile>): (res: (Inventory, Result<DiskData, Error>))
    requires m > 0
    ensures var cur := ReadDisk(dev, stats, SectorSize(lsblk, dev));
      && (cur.Failure? ==> res.0 == inv && res.1 == Failure(cur.error))
      && (cur.Success? ==>
            && res.0.sectorSizes == inv.sectorSizes
            && res.0.saved.Keys == inv.saved.Keys + {dev}
            && res.0.saved[dev] == cur.value
            && (forall d :: d in inv.saved && d != dev ==> res.0.saved[d] == inv.saved[d])
            && (dev !in inv.saved ==> res.1 == Failure(Unavailable("no previous data for " + dev)))
            && (dev in inv.saved ==> res.1 == Diff(m, cur.value, inv.saved[dev])))
  {
    match ReadDisk(dev, stats, SectorSize(lsblk, dev))
    case Failure(e) => (inv, Failure(e))
    case Success(current) =>
      var previous := Get(inv.saved, dev);
      var inv' := inv.(saved := inv.saved[dev := current]);
      if previous.None? then (inv', Failure(Unavailable("no previous data for " + dev)))
      else (inv', Diff(m, current, previous.value))
  }

  /** The store stays keyed by device, and a device already in it never hits the
      device-mismatch error: a successful read always yields a delta. */
  lemma GetDiskStatsKeepsKeys(inv: Inventory, m: nat, dev: string, lsblk: Option<seq<string>>,
                              stats: map<string, StatFile>)
    requires m > 0 && WellKeyed(inv.saved)
    ensures WellKeyed(GetDiskStats(inv, m, dev, lsblk, stats).0.saved)
    ensures dev in inv.saved && ReadDisk(dev, stats, SectorSize(lsblk, dev)).Success? ==>
              GetDiskStats(inv, m, dev, lsblk, stats).1.Success?
  {
  }

  /** The first read of a device fails with "no previous data" but stores the reading, so
      the next successful read of it yields a delta. */
  lemma SecondReadSucceeds(inv: Inventory, m: nat, dev: string, lsblk1: Option<seq<string>>,
                           stats1: map<string, StatFile>, lsblk2: Option<seq<string>>,
                           stats2: map<string, StatFile>)
    requires m > 0 && WellKeyed(inv.saved) && dev !in inv.saved
    requires ReadDisk(dev, stats1, SectorSize(lsblk1, dev)).Success?
    requires ReadDisk(dev, stats2, SectorSize(lsblk2, dev)).Success?
    ensures GetDiskStats(inv, m, dev, lsblk1, stats1).1 == Failure(Unavailable("no previous data for " + dev))
    ensures var inv1 := GetDiskStats(inv, m, dev, lsblk1, stats1).0;
      var r2 := GetDiskStats(inv1, m, dev, lsblk2, stats2).1;
      && r2.Success?
      && r2.value.deltaTime == stats2[dev].time - stats1[dev].time
  {
    var inv1 := GetDiskStats(inv, m, dev, lsblk1, stats1).0;
    GetDiskStatsKeepsKeys(inv, m, dev, lsblk1, stats1);
    GetDiskStatsKeepsKeys(inv1, m, dev, lsblk2, stats2);
  }

  /** A device read at t=0, 10 and 20 with 32-bit counters: 100, 150 and then 40 reads after
      the counter wrapped. */
  lemma WrapScenario()
    ensures var r0 := RawDiskData("sda", 0, 100, 0, 0, 0, None);
      var r10 := RawDiskData("sda", 10, 150, 0, 0, 0, None);
      var r20 := RawDiskData("sda", 20, 40, 0, 0, 0, None);
      && Diff(Modulus32, r10, r0) == Success(DiskData("sda", 10, 50, None, 0, None))
      && Diff(Modulus32, r20, r10) == Success(DiskData("sda", 10, Modulus32 + 40 - 150, None, 0, None))
  {
    SingleWrap(Modulus32, 40, 150);
  }
}
