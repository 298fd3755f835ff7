/** `DataCollector`: the baseline/sample state machine over the readers and diff engines. */
module Collector {

  import opened Wrappers
  import opened Errors
  import opened WrappingCounter
  import opened Disk
  import opened Net
  import opened MmaIds
  import opened CpuInfo

  /** A counter modulus that `set_32_bit` has set. */
  type Modulus = m: nat | m > UnsetModulus witness 1

  /** What the host's files and commands yield during one call. `None` stands for a file
      that cannot be opened or a command that cannot be run. */
  datatype Host = Host(
    multihomeConfs: seq<seq<string>>,   // omsadmin.conf of each workspace directory, in glob order
    legacyConfs: seq<seq<string>>,      // the single-workspace omsadmin.conf, if present
    lscpuList: Probe,                   // `lscpu -p`
    lscpuSummary: Probe,                // `lscpu`
    route: Option<seq<string>>,         // /proc/net/route
    netDev: Option<NetDevFile>,         // /proc/net/dev
    virtualNet: set<string>,            // names under /sys/devices/virtual/net
    lsblk: Option<seq<string>>,         // `lsblk -sd -oNAME,LOG-SEC`
    diskStats: map<string, StatFile>)   // /sys/class/block/<dev>/stat

  /** The collector's instance state. `Fresh` is a collector whose `@baseline_exception` is
      still set; `Ready` is one that `baseline` has cleared it on. */
  datatype Collector =
    | Fresh
    | Ready(
        mmaIds: MmaIds,
        cpuCount: Result<nat, Error>,
        modulus: Modulus,
        savedNet: map<string, RawNetData>,
        disk: Inventory)

  /** `@baseline_exception` */
  function BaselineException(c: Collector): (e: Option<Error>)
    ensures e.Some? <==> c.Fresh?
    ensures e.Some? ==> e.value == BaselineNotCalled
  {
    if c.Fresh? then Some(BaselineNotCalled) else None
  }

  /** `DataCollector.new` */
  function Init(): (c: Collector)
    ensures BaselineException(c) == Some(BaselineNotCalled)
  {
    Fresh
  }

  /** What `baseline` sets up and the sampling calls keep. */
  ghost predicate Valid(c: Collector)
  {
    c.Ready? ==>
      && (c.modulus == Modulus32 || c.modulus == Modulus64)
      && WellFormed(c.mmaIds)
      && (c.cpuCount.Success? ==> c.cpuCount.value > 0)
      && WellKeyed(c.disk.saved)
      && (forall d :: d in c.savedNet ==> c.savedNet[d].device == d)
  }

  /** The error `baseline` raises when reading `/proc/net/dev` fails. */
  const NetDevUnreadable: Error := IoFailure("/proc/net/dev: cannot open")

  /** `baseline`: load the agent ids, clear the baseline error, take the CPU count (an error
      value when it cannot be had) and the counter width, and replace the saved network
      snapshot and the disk store by fresh readings. An exception in either of those
      readings propagates. */
  function Baseline(c: Collector, h: Host): (r: Result<Collector, Error>)
    ensures r.Success? <==> h.netDev.Some? && Disk.Baseline(h.lsblk, h.diskStats).Success?
    ensures h.netDev.None? ==> r == Failure(NetDevUnreadable)
    ensures r.Success? ==> var c' := r.value;
      && BaselineException(c') == None
      && Valid(c')
      && c'.mmaIds == LoadMmaIds(h.multihomeConfs, h.legacyConfs)
      && c'.cpuCount == CpuInfoBaseline(h.lscpuList, h.lscpuSummary).0
      && c'.modulus == SetThirtyTwoBit(!CpuInfoBaseline(h.lscpuList, h.lscpuSummary).1)
      && c'.savedNet == ParseNetDev(h.netDev.value, UpDevices(h.route), h.virtualNet).readings
      && c'.disk == Disk.Baseline(h.lsblk, h.diskStats).value
      && c'.disk.sectorSizes == SectorSizes(h.lsblk, [])
      && c'.disk.saved.Keys == c'.disk.sectorSizes.Keys
  {
    var ids := LoadMmaIds(h.multihomeConfs, h.legacyConfs);
    var (count, is64) := CpuInfoBaseline(h.lscpuList, h.lscpuSummary);
    var m := SetThirtyTwoBit(!is64);
    if h.netDev.None? then Failure(NetDevUnreadable)
    else
      var snap := ParseNetDev(h.netDev.value, UpDevices(h.route), h.virtualNet);
      match Disk.Baseline(h.lsblk, h.diskStats)
      case Failure(e) => Failure(e)
      case Success(inv) => Success(Ready(ids, count, m, snap.readings, inv))
  }

  /** `get_mma_ids`: an absent id (`nil`, or a single `nil` id) is Unavailable. */
  function GetMmaIds(c: Collector): (r: Result<MmaIds, Error>)
    ensures c.Fresh? ==> r == Failure(BaselineNotCalled)
    ensures c.Ready? ==> (r.Failure? <==> c.mmaIds == NoIds || c.mmaIds == OneId(None))
    ensures c.Ready? && r.Failure? ==> r.error == Unavailable("no MMA ids found")
    ensures r.Success? ==> r.value == c.mmaIds
  {
    if c.Fresh? then Failure(BaselineNotCalled)
    else if c.mmaIds.NoIds? || c.mmaIds == OneId(None) then Failure(Unavailable("no MMA ids found"))
    else Success(c.mmaIds)
  }

  /** `get_number_of_cpus`: a count stored as an error is raised again on every call. */
  function GetNumberOfCpus(c: Collector): (r: Result<nat, Error>)
    ensures c.Fresh? ==> r == Failure(BaselineNotCalled)
    ensures c.Ready? ==> r == c.cpuCount
  {
    if c.Fresh? then Failure(BaselineNotCalled) else c.cpuCount
  }

  /** `get_net_stats` with the up flags of `/proc/net/dev` taken from `up`: report the new
      snapshot against the saved one, then save it whole. */
  function NetStatsWith(c: Collector, h: Host, up: set<string>): (res: (Collector, Result<seq<NetReport>, Error>))
    ensures c.Fresh? ==> res == (c, Failure(BaselineNotCalled))
    ensures c.Ready? && h.netDev.None? ==> res == (c, Failure(NetDevUnreadable))
    ensures c.Ready? && h.netDev.Some? ==>
              && res.1.Success?
              && res.0 == c.(savedNet := ParseNetDev(h.netDev.value, up, h.virtualNet).readings)
    ensures Valid(c) ==> Valid(res.0)
  {
    if c.Fresh? then (c, Failure(BaselineNotCalled))
    else if h.netDev.None? then (c, Failure(NetDevUnreadable))
    else
      var snap := ParseNetDev(h.netDev.value, up, h.virtualNet);
      (c.(savedNet := snap.readings), Success(Reports(c.modulus, c.savedNet, Entries(snap))))
  }

  /** `get_net_stats`, with the corrected reading of `/proc/net/route`. */
  function GetNetStats(c: Collector, h: Host): (res: (Collector, Result<seq<NetReport>, Error>))
    ensures c.Fresh? ==> res == (c, Failure(BaselineNotCalled))
    ensures c.Ready? && h.netDev.None? ==> res == (c, Failure(NetDevUnreadable))
    ensures c.Ready? && h.netDev.Some? ==>
              && res.1.Success?
              && res.0 == c.(savedNet := ParseNetDev(h.netDev.value, UpDevices(h.route), h.virtualNet).readings)
    ensures Valid(c) ==> Valid(res.0)
  {
    NetStatsWith(c, h, UpDevices(h.route))
  }

  /** `get_net_stats` as written, with `partition(" ")` cutting the route lines. */
  function GetNetStatsAsWritten(c: Collector, h: Host): (res: (Collector, Result<seq<NetReport>, Error>))
    ensures c.Fresh? ==> res == (c, Failure(BaselineNotCalled))
    ensures c.Ready? && h.netDev.None? ==> res == (c, Failure(NetDevUnreadable))
    ensures c.Ready? && h.netDev.Some? ==>
              && res.1.Success?
              && res.0 == c.(savedNet := ParseNetDev(h.netDev.value, UpDevicesAsWritten(h.route), h.virtualNet).readings)
    ensures Valid(c) ==> Valid(res.0)
  {
    NetStatsWith(c, h, UpDevicesAsWritten(h.route))
  }

  /** Lines 149-151: a name with a '/' loses its first five characters ("/dev/"); Ruby's
      `dev[5, dev.length]` is `nil` when the name is shorter than that. */
  function NormalizeDevice(dev: string): (r: Option<string>)
    ensures '/' !in dev ==> r == Some(dev)
    ensures '/' in dev ==> (r.Some? <==> |dev| >= 5)
    ensures r.Some? && '/' in dev ==> dev == dev[..5] + r.value
  {
    if '/' !in dev then Some(dev)
    else if |dev| < 5 then None
    else Some(dev[5..])
  }

  lemma NormalizeDevicePath(name: string)
    ensures NormalizeDevice("/dev/" + name) == Some(name)
  {
    var p := "/dev/" + name;
    assert p[0] == '/';
    assert p[5..] == name;
  }

  /** `get_disk_stats(dev)` */
  function GetDiskStats(c: Collector, dev: string, h: Host): (res: (Collector, Result<DiskData, Error>))
    ensures c.Fresh? ==> res == (c, Failure(BaselineNotCalled))
    ensures c.Ready? && NormalizeDevice(dev).None? ==> res == (c, Failure(ArgumentError("dev is nil")))
    ensures c.Ready? && NormalizeDevice(dev).Some? ==>
              var step := Disk.GetDiskStats(c.disk, c.modulus, NormalizeDevice(dev).value, h.lsblk, h.diskStats);
              res == (c.(disk := step.0), step.1)
  {
    if c.Fresh? then (c, Failure(BaselineNotCalled))
    else match NormalizeDevice(dev)
      case None => (c, Failure(ArgumentError("dev is nil")))
      case Some(d) =>
        var (inv, r) := Disk.GetDiskStats(c.disk, c.modulus, d, h.lsblk, h.diskStats);
        (c.(disk := inv), r)
  }

  /** The sampling calls keep what `baseline` set up. */
  lemma SamplingKeepsValid(c: Collector, h: Host, dev: string)
    requires Valid(c)
    ensures Valid(GetNetStats(c, h).0)
    ensures Valid(GetDiskStats(c, dev, h).0)
  {
    if c.Ready? && NormalizeDevice(dev).Some? {
      GetDiskStatsKeepsKeys(c.disk, c.modulus, NormalizeDevice(dev).value, h.lsblk, h.diskStats);
    }
  }

  /** A baselined collector never raises the baseline error from a sampling call. */
  lemma ReadyNeverRaisesGuard(c: Collector, h: Host, dev: string)
    requires c.Ready?
    ensures GetNetStats(c, h).1 != Failure(BaselineNotCalled)
    ensures GetDiskStats(c, dev, h).1 != Failure(BaselineNotCalled)
    ensures GetNetStats(c, h).0.Ready? && GetDiskStats(c, dev, h).0.Ready?
  {
    var d := NormalizeDevice(dev);
    if d.Some? {
      var cur := ReadDisk(d.value, h.diskStats, SectorSize(h.lsblk, d.value));
      var step := Disk.GetDiskStats(c.disk, c.modulus, d.value, h.lsblk, h.diskStats);
      if cur.Success? && d.value in c.disk.saved {
        var prev := c.disk.saved[d.value];
        assert step.1 == Disk.Diff(c.modulus, cur.value, prev);
      }
    }
  }

  /** Before `baseline`, every guarded call raises "baseline has not been called" and
      changes nothing. */
  lemma GuardsBeforeBaseline(h: Host, dev: string)
    ensures GetMmaIds(Init()) == Failure(BaselineNotCalled)
    ensures GetNumberOfCpus(Init()) == Failure(BaselineNotCalled)
    ensures GetNetStats(Init(), h) == (Init(), Failure(BaselineNotCalled))
    ensures GetDiskStats(Init(), dev, h) == (Init(), Failure(BaselineNotCalled))
  {
  }

  /** After `baseline`, no guarded call raises "baseline has not been called", and the
      sampling calls leave the collector baselined. */
  lemma NoGuardErrorAfterBaseline(c: Collector, h: Host, h': Host, dev: string)
    requires Baseline(c, h).Success?
    ensures var c' := Baseline(c, h).value;
      && GetMmaIds(c') != Failure(BaselineNotCalled)
      && GetNumberOfCpus(c') != Failure(BaselineNotCalled)
      && GetNetStats(c', h').1 != Failure(BaselineNotCalled)
      && GetDiskStats(c', dev, h').1 != Failure(BaselineNotCalled)
      && BaselineException(GetNetStats(c', h').0) == None
      && BaselineException(GetDiskStats(c', dev, h').0) == None
  {
    ReadyNeverRaisesGuard(Baseline(c, h).value, h', dev);
  }

  /** `baseline` keeps nothing of the state it replaces: a second `baseline` makes every
      later delta relative to its own readings, not the first one's. */
  lemma BaselineForgetsHistory(c1: Collector, c2: Collector, h: Host)
    ensures Baseline(c1, h) == Baseline(c2, h)
  {
  }

  /** When `lscpu` cannot be run, the CPU count is an error raised by every later
      `get_number_of_cpus`, sampling calls in between notwithstanding, and the counters are
      taken to be 64 bits wide. */
  lemma DeferredCpuError(c: Collector, h: Host, h': Host, dev: string)
    requires h.lscpuList.Threw?
    requires Baseline(c, h).Success?
    ensures var c1 := Baseline(c, h).value;
      && c1.modulus == Modulus64
      && GetNumberOfCpus(c1) == Failure(Unavailable(h.lscpuList.message))
      && GetNumberOfCpus(GetNetStats(c1, h').0) == Failure(Unavailable(h.lscpuList.message))
      && GetNumberOfCpus(GetDiskStats(c1, dev, h').0) == Failure(Unavailable(h.lscpuList.message))
  {
  }

  /** When `lscpu -p` lists no CPU, the count is the error "No CPUs found" until the next
      `baseline`. */
  lemma NoCpusFound(c: Collector, h: Host, h': Host, dev: string)
    requires h.lscpuList.Ran? && h.lscpuSummary.Ran?
    requires forall i :: 0 <= i < |h.lscpuList.lines| ==> !IsCpuLine(h.lscpuList.lines[i])
    requires Baseline(c, h).Success?
    ensures var c1 := Baseline(c, h).value;
      && GetNumberOfCpus(c1) == Failure(Unavailable("No CPUs found"))
      && GetNumberOfCpus(GetNetStats(c1, h').0) == Failure(Unavailable("No CPUs found"))
      && GetNumberOfCpus(GetDiskStats(c1, dev, h').0) == Failure(Unavailable("No CPUs found"))
  {
    var c1 := Baseline(c, h).value;
    assert c1.cpuCount == Failure(Unavailable("No CPUs found"));
    assert GetNetStats(c1, h').0.cpuCount == c1.cpuCount;
    assert GetDiskStats(c1, dev, h').0.cpuCount == c1.cpuCount;
  }

  /** Which interfaces `get_net_stats` reports, whatever the up flags: one seen for the first
      time exactly when it is up (as its raw reading), a known one exactly when it is up or its
      delta is active (as that delta); nothing outside the new snapshot is reported. */
  lemma NetStatsPolicyWith(c: Collector, h: Host, up: set<string>, dev: string)
    requires c.Ready? && h.netDev.Some?
    ensures var snap := ParseNetDev(h.netDev.value, up, h.virtualNet);
      var reports := NetStatsWith(c, h, up).1.value;
      && (forall r :: r in reports ==>
            r.Device() in snap.readings && r == ReportOf(c.modulus, c.savedNet, snap.readings[r.Device()]))
      && (dev in snap.readings && dev !in c.savedNet ==>
            ((exists r :: r in reports && r.Device() == dev) <==> dev in up))
      && (dev in snap.readings && dev in c.savedNet ==>
            ((exists r :: r in reports && r.Device() == dev) <==>
               dev in up || Active(Net.Diff(c.modulus, snap.readings[dev], c.savedNet[dev]))))
  {
    var snap := ParseNetDev(h.netDev.value, up, h.virtualNet);
    assert NetStatsWith(c, h, up).1.value == Reports(c.modulus, c.savedNet, Entries(snap));
    ReportsSound(c.modulus, c.savedNet, snap);
    if dev in snap.readings {
      ReportsComplete(c.modulus, c.savedNet, snap, dev);
    }
  }

  /** `get_net_stats` reports each interface at most once, in the order in which the
      interfaces first appear in `/proc/net/dev`. */
  lemma NetStatsOnePerInterface(c: Collector, h: Host, up: set<string>)
    requires c.Ready? && h.netDev.Some?
    ensures var snap := ParseNetDev(h.netDev.value, up, h.virtualNet);
      var reports := NetStatsWith(c, h, up).1.value;
      && (forall i, j :: 0 <= i < j < |reports| ==> reports[i].Device() != reports[j].Device())
      && OrderedByFirst(Accepted(h.netDev.value, up, h.virtualNet), snap.order)
  {
    var snap := ParseNetDev(h.netDev.value, up, h.virtualNet);
    var es := Entries(snap);
    assert NetStatsWith(c, h, up).1.value == Reports(c.modulus, c.savedNet, es);
    forall i, j | 0 <= i < j < |es|
      ensures es[i].device != es[j].device
    {
      assert es[i].device == snap.order[i] && es[j].device == snap.order[j];
    }
    ReportsDistinct(c.modulus, c.savedNet, es);
    ParseNetDevOrder(h.netDev.value, up, h.virtualNet);
  }

  /** The same policy for `get_net_stats` with the corrected route reader. */
  lemma NetStatsPolicy(c: Collector, h: Host, dev: string)
    requires c.Ready? && h.netDev.Some?
    ensures var snap := ParseNetDev(h.netDev.value, UpDevices(h.route), h.virtualNet);
      var reports := GetNetStats(c, h).1.value;
      && (forall r :: r in reports ==>
            r.Device() in snap.readings && r == ReportOf(c.modulus, c.savedNet, snap.readings[r.Device()]))
      && (dev in snap.readings && dev !in c.savedNet ==>
            ((exists r :: r in reports && r.Device() == dev) <==> dev in UpDevices(h.route)))
      && (dev in snap.readings && dev in c.savedNet ==>
            ((exists r :: r in reports && r.Device() == dev) <==>
               dev in UpDevices(h.route) || Active(Net.Diff(c.modulus, snap.readings[dev], c.savedNet[dev]))))
  {
    NetStatsPolicyWith(c, h, UpDevices(h.route), dev);
  }

  /** The code as written: on a route table whose rows have a tab before any space (the
      kernel's layout, see `Net.RouteTableTabs`), no interface of `/proc/net/dev` is up, so
      `get_net_stats` never reports an interface it sees for the first time, and reports a
      known one exactly when its counters moved. */
  lemma AsWrittenReportsOnlyActive(c: Collector, h: Host, dev: string)
    requires c.Ready? && h.netDev.Some? && h.route.Some?
    requires forall i :: 1 <= i < |h.route.value| ==> '\t' in RouteDeviceAsWritten(h.route.value[i])
    ensures var snap := ParseNetDev(h.netDev.value, UpDevicesAsWritten(h.route), h.virtualNet);
      var reports := GetNetStatsAsWritten(c, h).1.value;
      && (forall r :: r in reports ==> r.Delta? && r.Device() in c.savedNet)
      && (dev in snap.readings ==>
            ((exists r :: r in reports && r.Device() == dev) <==>
               dev in c.savedNet && Active(Net.Diff(c.modulus, snap.readings[dev], c.savedNet[dev]))))
  {
    var up := UpDevicesAsWritten(h.route);
    var snap := ParseNetDev(h.netDev.value, up, h.virtualNet);
    var reports := GetNetStatsAsWritten(c, h).1.value;
    NetStatsPolicyWith(c, h, up, dev);
    forall r | r in reports
      ensures r.Delta? && r.Device() in c.savedNet
    {
      var d := r.Device();
      NetStatsPolicyWith(c, h, up, d);
      assert d !in up;
    }
  }

  /** After a successful `baseline`, the next `get_disk_stats` of a device `lsblk` listed is
      its delta against the reading `baseline` took, whenever the device can be read again. */
  lemma DiskDeltaAgainstBaseline(c: Collector, h: Host, h': Host, dev: string)
    requires Baseline(c, h).Success?
    requires dev in SectorSizes(h.lsblk, []) && '/' !in dev
    requires ReadDisk(dev, h'.diskStats, SectorSize(h'.lsblk, dev)).Success?
    ensures var c1 := Baseline(c, h).value;
      var r := GetDiskStats(c1, dev, h').1;
      && r.Success?
      && c1.disk.saved[dev] == ReadDisk(dev, h.diskStats, Some(SectorSizes(h.lsblk, [])[dev])).value
      && r.value.deltaTime == h'.diskStats[dev].time - h.diskStats[dev].time
      && r == Disk.Diff(c1.modulus, ReadDisk(dev, h'.diskStats, SectorSize(h'.lsblk, dev)).value, c1.disk.saved[dev])
  {
    var c1 := Baseline(c, h).value;
    GetDiskStatsKeepsKeys(c1.disk, c1.modulus, dev, h'.lsblk, h'.diskStats);
  }
}
