# VM Insights data collector: the baseline/diff engine in Dafny

This project models the measurement core of the VM Insights data collector of the OMS
agent for Linux (`source/code/plugins/VMInsightsDataCollector.rb`). The collector turns
raw kernel counters sampled at two moments into per-interval deltas. It corrects for
counters that wrapped around at 32 or 64 bits. It tracks disks and network interfaces
that appear, vanish or change state between samples.

The model is functional. The collector's instance state is a datatype, `Collector.Collector`:
`Fresh` while `@baseline_exception` is set, `Ready` once `baseline` has cleared it. Every
operation is a function from the state (and what the host's files and commands yield,
`Collector.Host`) to the next state and a `Result`, whose `Failure` stands for a raised
exception.

Modules, leaves first:

- `Wrappers`, `Errors`: `Option` (Ruby's `nil`), `Result`, and the exception kinds.
- `Text`: the parts of Ruby's string library the code uses: `split(" ")`, `to_i`,
  `Integer()`, `chomp`, `start_with?`, `include?` and `<=>`.
- `WrappingCounter`: `DataWithWrappingCounter` (`set_32_bit`, `sub_with_wrap`).
- `Disk`: `RawDiskData`, `DiskData` and `DiskInventory`. This covers the stat-line read,
  the `lsblk` sector-size parse, `baseline` and `get_disk_stats`.
- `Net`: `RawNetData`, `NetData`, `get_net_data`, `get_up_net_devices` and the report
  loop of `get_net_stats`.
- `Filesystems`: `Fs` (constructor checks, `<=>`) and the row filter of `get_filesystems`.
- `MmaIds`: `load_mma_ids`.
- `CpuInfo`: `get_cpu_info_baseline`.
- `MemInfo`: `get_available_memory_kb`.
- `Collector`: `DataCollector`'s state machine (`initialize`, `baseline`, `get_mma_ids`,
  `get_number_of_cpus`, `get_net_stats` and `get_disk_stats`).

Collaborators are parameters. File contents are sequences of lines. A file that cannot be
opened, or a command that cannot be run, is `None` or `Probe.Threw`. For `lsblk`, `None`
stands for the one failure `get_sector_sizes` rescues, a missing executable
(`Errno::ENOENT`, line 216). `Dir.exist?` on
`/sys/devices/virtual/net/<dev>` is the set `Host.virtualNet`. `Time.now` is an integer
timestamp delivered with each file.

Notes on the code's behaviour that the model follows:

- The sector-size cache `@sector_sizes` is only used inside `DiskInventory#baseline`. On
  the sampling path, `get_sector_size` runs `lsblk` afresh on every call (line 186). So the
  sector size is an input of every read.
- `get_filesystems` is not guarded by `@baseline_exception`.
- An interface token of `/proc/net/dev` is accepted only when it is shorter than 10
  characters including its colon. Interface names therefore have at most 8 characters.
- When `lscpu` raises, the 64-bit flag is `true` (line 437). When it runs, the flag is
  `false` if there is no `CPU op-mode(s):` line or if the first such line does not mention
  `64-bit`.
- The "baseline has not been called" error carries no earlier failure. `@baseline_exception`
  only ever holds the initial error or `nil`.
- `get_disk_data` never returns `nil`. A missing stat file raises from `File.open`, and
  an empty one raises "is empty". So the "no data for <dev>" branch (line 187) is never
  taken. The model reports the read's own error, and the store is unchanged either way.
- Two disk readings of different devices raise an ArgumentError (line 267). The code does
  not treat this as a fatal precondition.
- `DiskInventory#baseline` discards all earlier disk readings. Stale entries do not
  survive a re-baseline.

## Model

| member | source | states |
|---|---|---|
| WrappingCounter.SetThirtyTwoBit | source/code/plugins/VMInsightsDataCollector.rb:160-162 | `set_32_bit` always leaves a usable (non-zero) modulus |
| WrappingCounter.SubWithWrap | source/code/plugins/VMInsightsDataCollector.rb:166-168 | needs a modulus that has been set; the result lies in [0, M), is congruent to a - b modulo M, and equals a - b when no wrap happened |
| WrappingCounter.SubWithWrapUndoes | source/code/plugins/VMInsightsDataCollector.rb:166-168 | adding the wrapped difference to the older reading gives back the newer one modulo M |
| WrappingCounter.SubWithWrapUnique | source/code/plugins/VMInsightsDataCollector.rb:166-168 | the wrapped difference is the only value in [0, M) congruent to a - b |
| WrappingCounter.SingleWrap | source/code/plugins/VMInsightsDataCollector.rb:166-168 | a counter that wrapped once yields M + a - b, its true increase |
| WrappingCounter.WidthSelection | source/code/plugins/VMInsightsDataCollector.rb:158-168 | 32-bit gives 2^32 and 64-bit gives 2^64; 5 minus 4294967290 is 11 with 32-bit counters and 2^64 - 4294967285 with 64-bit ones |
| Disk.Diff | source/code/plugins/VMInsightsDataCollector.rb:266-277 | fails with ArgumentError exactly when the device names differ; counts lie in [0, M); byte fields are nil exactly when the newer reading's sector size is nil |
| Disk.DiffRecoversCurrent | source/code/plugins/VMInsightsDataCollector.rb:266-277 | a delta added to the older reading gives the newer one: the plain time difference, each count an increase modulo M, each byte field such an increase of the sector count times the newer sector size |
| Disk.WrapScenario | source/code/plugins/VMInsightsDataCollector.rb:266-277 | reads 100, 150, then 40 after a wrap, with 32-bit counters, give deltas 50 and 2^32 + 40 - 150 |
| Disk.ReadDisk | source/code/plugins/VMInsightsDataCollector.rb:222-238 | a reading exists exactly when the stat file exists and has a first line; it carries the device, the read time, the given sector size, and words 1, 3, 5 and 7 of that line (each `to_i`, 0 when missing) as read count, read sectors, write count and write sectors |
| Disk.StatLineRoundTrip | source/code/plugins/VMInsightsDataCollector.rb:222-238 | a stat line of seven decimal numbers reads back as the device, the time, fields 1, 3, 5 and 7 and the given sector size |
| Disk.SizeRowsKeys | source/code/plugins/VMInsightsDataCollector.rb:208-214 | a device gets a sector size exactly when some `lsblk` data row of two or more words names it and it was requested (or nothing was) |
| Disk.SizeRowsLast | source/code/plugins/VMInsightsDataCollector.rb:208-214 | a device's size comes from the last data row that names it (rows about other devices do not matter): word 2 of that row, read with `to_i` |
| Disk.SectorSizes | source/code/plugins/VMInsightsDataCollector.rb:202-220 | a missing `lsblk` gives no sizes; a device gets a size exactly when a data row after the header names it and it was requested (or nothing was); the size is word 2 of the last such row |
| Disk.SectorSize | source/code/plugins/VMInsightsDataCollector.rb:196-200 | the size of `dev` is known exactly when a data row after the header names it, and is then word 2 of the last such row read with `to_i` (0 for a non-numeric field) |
| Disk.Baseline | source/code/plugins/VMInsightsDataCollector.rb:179-183 | succeeds exactly when every listed device can be read; the store then holds exactly the listed devices, each as the stat-file read of it with its listed sector size |
| Disk.GetDiskStats | source/code/plugins/VMInsightsDataCollector.rb:185-192 | a failed read changes nothing; otherwise the entry for dev becomes the new reading and no other entry changes; the answer is "no previous data" exactly when there was no entry, else the delta against it |
| Disk.GetDiskStatsKeepsKeys | source/code/plugins/VMInsightsDataCollector.rb:185-192 | the store stays keyed by device name, and a known device that can be read always yields a delta, never the mismatch error |
| Disk.SecondReadSucceeds | source/code/plugins/VMInsightsDataCollector.rb:185-192 | the first read of a new device fails with "no previous data" but is stored, so the next read of it yields a delta over the time between the two reads |
| Net.Diff | source/code/plugins/VMInsightsDataCollector.rb:310-315 | the delta carries the newer reading's device and the time difference, and each byte count is the unique increase in [0, M) that takes the older counter to the newer one modulo M |
| Net.WrapIsZero | source/code/plugins/VMInsightsDataCollector.rb:166-168 | the wrapped difference is zero exactly when the two readings agree modulo M |
| Net.ActiveIffCounterMoved | source/code/plugins/VMInsightsDataCollector.rb:291-293 | a delta is active exactly when one of the two byte counters changed modulo M |
| Net.DeviceToken | source/code/plugins/VMInsightsDataCollector.rb:329-331 | a token names an interface exactly when it is shorter than 10 characters and ends with ':'; the name plus ':' is the token |
| Net.Insert | source/code/plugins/VMInsightsDataCollector.rb:333-333 | storing a reading keeps the hash well formed and updates only that name; a new name goes to the end of the insertion order and a known one keeps its place |
| Net.Entries | source/code/plugins/VMInsightsDataCollector.rb:134-134 | `each_pair` visits each reading once, in insertion order |
| Net.NetDevLine | source/code/plugins/VMInsightsDataCollector.rb:326-333 | a line is accepted exactly when its first word is an interface token naming a non-virtual interface; the reading then has that name, the read time, the up flag from the route table and words 2 and 10 as received and sent bytes |
| Net.Accepted | source/code/plugins/VMInsightsDataCollector.rb:326-334 | one parse result per line of the file |
| Net.Collect | source/code/plugins/VMInsightsDataCollector.rb:323-336 | the stored hash is well formed and holds, for each interface, its last accepted reading |
| Net.CollectOrder | source/code/plugins/VMInsightsDataCollector.rb:323-336 | every name in the hash's insertion order has an accepted reading, and the names are ordered by their first accepted readings |
| Net.ParseNetDevOrder | source/code/plugins/VMInsightsDataCollector.rb:320-337 | the interfaces of the hash are in the order of the `/proc/net/dev` lines that first name them |
| Net.ParseNetDevLastWins | source/code/plugins/VMInsightsDataCollector.rb:326-333 | the stored reading of an interface is what the last line naming it yields |
| Net.CollectKeys | source/code/plugins/VMInsightsDataCollector.rb:323-336 | a name is stored exactly when some accepted reading carries it |
| Net.ParseNetDev | source/code/plugins/VMInsightsDataCollector.rb:320-337 | every stored interface has a space-free name of at most 8 characters, is not virtual, is up exactly when the route table lists it, and carries the file's read time |
| Net.ParseNetDevKeys | source/code/plugins/VMInsightsDataCollector.rb:320-337 | an interface is in the snapshot exactly when some line of the file is accepted for it |
| Net.RouteDeviceAsWritten | source/code/plugins/VMInsightsDataCollector.rb:345-345 | `partition(" ")` takes the longest prefix without a space character |
| Net.RouteDevice | source/code/plugins/VMInsightsDataCollector.rb:345-345 | the corrected extraction is "" exactly when the line is all whitespace, and is otherwise the first whitespace-separated word of the line |
| Net.UpDevicesAsWritten | source/code/plugins/VMInsightsDataCollector.rb:339-353 | as written, a name is up exactly when it is the non-empty space-free prefix of a route line after the header |
| Net.UpDevices | source/code/plugins/VMInsightsDataCollector.rb:339-353 | a name is up exactly when it is the first word of a route line after the header; an unreadable table gives none |
| Net.RouteTableTabs | source/code/plugins/VMInsightsDataCollector.rb:345-346 | on a tab-separated route line, the code as written keeps the whole row and never the interface name; the corrected reading finds the name |
| Net.ReportOf | source/code/plugins/VMInsightsDataCollector.rb:136-140 | a report is about the reading's own interface |
| Net.Reports | source/code/plugins/VMInsightsDataCollector.rb:134-142 | each report is that of an included reading, and every included reading is reported |
| Net.ReportsAppend | source/code/plugins/VMInsightsDataCollector.rb:134-142 | the reports of concatenated entries are the reports of each part in turn, so reports follow the `each_pair` order |
| Net.ReportsSingle | source/code/plugins/VMInsightsDataCollector.rb:136-141 | one entry is reported once, as its own report, exactly when it is included, and otherwise not at all |
| Net.ReportsDistinct | source/code/plugins/VMInsightsDataCollector.rb:134-142 | entries of distinct interfaces give reports of distinct interfaces |
| Net.ReportsSound | source/code/plugins/VMInsightsDataCollector.rb:134-142 | each report is the report of the snapshot's own reading for its interface |
| Net.ReportsComplete | source/code/plugins/VMInsightsDataCollector.rb:134-142 | an interface of the snapshot is reported exactly when its reading is included |
| Filesystems.NewFs | source/code/plugins/VMInsightsDataCollector.rb:356-364 | construction succeeds exactly when the device starts with /dev/, the mount point with /, size and free are base-10 integers and size is not 0; every failure is an ArgumentError, raised by the first failing check in order and naming its argument (`Integer()`'s own message for a non-integer size or free) |
| Filesystems.Compare | source/code/plugins/VMInsightsDataCollector.rb:366-374 | `<=>` answers -1, 0 or 1 |
| Filesystems.CompareZeroIff | source/code/plugins/VMInsightsDataCollector.rb:366-374 | `<=>` is 0 exactly when all four fields are equal |
| Filesystems.CompareFlip | source/code/plugins/VMInsightsDataCollector.rb:366-374 | swapping the operands flips the sign |
| Filesystems.CompareTransitive | source/code/plugins/VMInsightsDataCollector.rb:366-374 | the lexicographic order is transitive |
| Filesystems.CompareFieldOrder | source/code/plugins/VMInsightsDataCollector.rb:366-374 | the first field in which two filesystems differ decides `<=>`: device name, mount point, size, then free space |
| Filesystems.DfRow | source/code/plugins/VMInsightsDataCollector.rb:109-115 | a row yields a filesystem exactly when it mentions ext2/3/4, has exactly five words and words 2-5 pass the constructor's checks; the filesystem is built from those words |
| Filesystems.DfRowRoundTrip | source/code/plugins/VMInsightsDataCollector.rb:109-115 | an ext4 row of five words built from a valid filesystem yields that filesystem |
| Filesystems.FsRows | source/code/plugins/VMInsightsDataCollector.rb:108-117 | every kept filesystem comes from some row, and every row that yields one is kept; malformed rows are skipped |
| Filesystems.FsRowsAppend | source/code/plugins/VMInsightsDataCollector.rb:108-117 | reading concatenated `df` output reads each part in turn, so the list keeps `df` order |
| Filesystems.FsRowsSingle | source/code/plugins/VMInsightsDataCollector.rb:108-117 | one row contributes its filesystem exactly once, or nothing when it is skipped |
| Filesystems.GetFilesystems | source/code/plugins/VMInsightsDataCollector.rb:99-122 | fails with Unavailable exactly when `df` cannot be run; otherwise the list is the rows' filesystems in `df` order, each once, holding every filesystem a row yields and nothing else |
| MmaIds.GuidValue | source/code/plugins/VMInsightsDataCollector.rb:388-388 | `split("=")[1]` is nil exactly when only '=' characters follow the key; otherwise it is the text after the key up to the next '=' |
| MmaIds.EmptyGuidIsNil | source/code/plugins/VMInsightsDataCollector.rb:386-390 | a conf whose line is `AGENT_GUID=` with nothing after it yields the id nil |
| MmaIds.EmptyGuidLoadsNil | source/code/plugins/VMInsightsDataCollector.rb:380-412 | a single workspace with an empty AGENT_GUID loads as one nil id, which `get_mma_ids` reports as "no MMA ids found" (line 37) |
| MmaIds.FirstGuid | source/code/plugins/VMInsightsDataCollector.rb:386-391 | a file yields an id exactly when one of its lines starts with AGENT_GUID=, and the id is the value of the first such line |
| MmaIds.GuidsOf | source/code/plugins/VMInsightsDataCollector.rb:384-392 | at most one id per file |
| MmaIds.GuidsOfAppend | source/code/plugins/VMInsightsDataCollector.rb:384-392 | the ids of several files are the ids of each file in turn |
| MmaIds.GuidsOfSingle | source/code/plugins/VMInsightsDataCollector.rb:384-392 | one file gives its first AGENT_GUID value, or nothing when it has no such line |
| MmaIds.CollapseRoundTrip | source/code/plugins/VMInsightsDataCollector.rb:404-411 | collapsing to nil / one id / a list loses nothing: the ids read back, and a well-formed result is the collapse of its ids |
| MmaIds.LoadMmaIds | source/code/plugins/VMInsightsDataCollector.rb:380-412 | the result stands for the ids of the multi-homing files when there are any, else of the legacy file |
| MmaIds.GuidLineRoundTrip | source/code/plugins/VMInsightsDataCollector.rb:386-390 | a line AGENT_GUID=g yields g for any non-empty g without '=' or line breaks |
| CpuInfo.CountCpuLines | source/code/plugins/VMInsightsDataCollector.rb:417-422 | the count is at most the number of lines |
| CpuInfo.CountCpuLinesZero | source/code/plugins/VMInsightsDataCollector.rb:419-423 | the count is zero exactly when no line starts with a digit |
| CpuInfo.CountCpuLinesAppend | source/code/plugins/VMInsightsDataCollector.rb:419-421 | counting is additive over concatenated output |
| CpuInfo.OpModeIs64Iff | source/code/plugins/VMInsightsDataCollector.rb:425-432 | the flag is set exactly when the first op-mode line mentions 64-bit |
| CpuInfo.CpuInfoBaseline | source/code/plugins/VMInsightsDataCollector.rb:414-438 | a thrown probe gives an error count and the 64-bit flag; otherwise the count is an error exactly when no CPU line is found, else the number of CPU lines, and the flag follows the first op-mode line |
| MemInfo.LastValue | source/code/plugins/VMInsightsDataCollector.rb:44-56 | absent exactly when no row qualifies; otherwise the value of the last qualifying row |
| MemInfo.AvailableMemoryKb | source/code/plugins/VMInsightsDataCollector.rb:41-62 | succeeds exactly when both fields are present; a missing MemAvailable is reported before a missing MemTotal; the values are the last qualifying ones |
| Collector.BaselineException | source/code/plugins/VMInsightsDataCollector.rb:9-20 | the baseline error is set exactly before `baseline` has run |
| Collector.Init | source/code/plugins/VMInsightsDataCollector.rb:9-16 | a new collector holds the "baseline has not been called" error |
| Collector.Baseline | source/code/plugins/VMInsightsDataCollector.rb:18-27 | succeeds exactly when /proc/net/dev and every listed disk can be read; it then clears the baseline error and sets the ids, the CPU count, the width `set_32_bit(!is_64_bit)` from the CPU probe, the net snapshot and the disk store that `DiskInventory#baseline` builds from the stat files |
| Collector.GetMmaIds | source/code/plugins/VMInsightsDataCollector.rb:35-39 | guarded by the baseline error; fails with "no MMA ids found" exactly when the ids are nil or a single nil; otherwise returns the stored value itself, a single id or a list |
| Collector.GetNumberOfCpus | source/code/plugins/VMInsightsDataCollector.rb:87-91 | guarded by the baseline error; otherwise answers, or re-raises, the stored count |
| Collector.GetNetStats | source/code/plugins/VMInsightsDataCollector.rb:130-145 | guarded; an unreadable /proc/net/dev changes nothing; otherwise the saved snapshot becomes the new one, read with the corrected route reader, and nothing else changes |
| Collector.GetNetStatsAsWritten | source/code/plugins/VMInsightsDataCollector.rb:130-145 | `get_net_stats` with the route reader as written: guarded; an unreadable /proc/net/dev changes nothing; otherwise the saved snapshot becomes the new one, with up flags from the space-cut route lines, and nothing else changes |
| Collector.NetStatsWith | source/code/plugins/VMInsightsDataCollector.rb:130-145 | for any up flags: guarded; an unreadable /proc/net/dev changes nothing; otherwise the saved snapshot becomes the new one and nothing else changes |
| Collector.NormalizeDevice | source/code/plugins/VMInsightsDataCollector.rb:149-151 | a name without '/' is kept; one with '/' loses its first five characters, and is nil when shorter than five |
| Collector.NormalizeDevicePath | source/code/plugins/VMInsightsDataCollector.rb:149-151 | "/dev/" + name becomes name |
| Collector.GetDiskStats | source/code/plugins/VMInsightsDataCollector.rb:147-153 | guarded; a nil name raises "dev is nil"; otherwise the disk store does the work and nothing else changes |
| Collector.SamplingKeepsValid | source/code/plugins/VMInsightsDataCollector.rb:130-153 | the sampling calls keep the width, the keying of both stores and the other baseline invariants |
| Collector.ReadyNeverRaisesGuard | source/code/plugins/VMInsightsDataCollector.rb:130-153 | once baselined, sampling never raises the baseline error and the collector stays baselined |
| Collector.GuardsBeforeBaseline | source/code/plugins/VMInsightsDataCollector.rb:9-16 | before `baseline`, all four guarded calls raise "baseline has not been called" and change nothing |
| Collector.NoGuardErrorAfterBaseline | source/code/plugins/VMInsightsDataCollector.rb:18-27 | after a successful `baseline`, none of the guarded calls raises the baseline error |
| Collector.BaselineForgetsHistory | source/code/plugins/VMInsightsDataCollector.rb:18-27 | `baseline`'s outcome does not depend on the earlier state, so later deltas are against the latest baseline |
| Collector.DeferredCpuError | source/code/plugins/VMInsightsDataCollector.rb:414-438 | when lscpu throws, the width is 64-bit and `get_number_of_cpus` keeps raising the stored error across sampling calls |
| Collector.NoCpusFound | source/code/plugins/VMInsightsDataCollector.rb:419-423 | when no CPU line is found, `get_number_of_cpus` keeps raising "No CPUs found" across sampling calls |
| Collector.NetStatsPolicy | source/code/plugins/VMInsightsDataCollector.rb:130-145 | a new interface is reported iff it is up; a known one iff it is up or its delta is active; each report is the raw reading or the delta of its interface, and only interfaces of the new snapshot appear |
| Collector.NetStatsPolicyWith | source/code/plugins/VMInsightsDataCollector.rb:130-145 | for any up flags: a new interface is reported iff it is up; a known one iff it is up or its delta is active; each report is that of the snapshot's own reading |
| Collector.NetStatsOnePerInterface | source/code/plugins/VMInsightsDataCollector.rb:130-145 | `get_net_stats` reports no interface twice, and visits interfaces in the order of the `/proc/net/dev` lines that first name them |
| Collector.AsWrittenReportsOnlyActive | source/code/plugins/VMInsightsDataCollector.rb:130-145 | with the route reader as written and a tab-separated route table, only known interfaces are reported, each exactly when its counters moved, always as a delta |
| Collector.DiskDeltaAgainstBaseline | source/code/plugins/VMInsightsDataCollector.rb:179-192 | after `baseline`, a listed device's stored reading is the stat-file read `baseline` took with its `lsblk` sector size, and its next sample is the delta against that reading |

## Findings

| source | as written | input that shows it | evidently intended | confidence | as-written member | corrected member |
|---|---|---|---|---|---|---|
| source/code/plugins/VMInsightsDataCollector.rb:345 | `line.partition(" ")[0]` cuts the route line at the first space character | a `/proc/net/route` row `eth0\t00000000\t0101A8C0\t...` followed by padding spaces: the kept text is the whole tab-separated row, never `eth0`, so no interface is ever up | take the interface name, the first whitespace-separated word | medium (depends on the kernel's tab-separated route table format); not executed | Net.RouteDeviceAsWritten, Net.UpDevicesAsWritten, Net.RouteTableTabs | Net.RouteDevice, Net.UpDevices |

`Collector.Baseline` and `Collector.GetNetStats` use the corrected `Net.UpDevices`.
`Collector.GetNetStatsAsWritten` uses the reader as written. For it,
`Collector.AsWrittenReportsOnlyActive` shows the consequence: no new interface is ever
reported, and a known one only when its counters moved.

## Left out

- `get_cpu_idle` and the `{ :up, :idle }` pair that `baseline` returns: floating point. An
  unreadable `/proc/uptime` makes `baseline` raise after the state is fully set up. The model's
  `Baseline` does not raise for it.
- The state left behind when `baseline` raises part-way (an unreadable `/proc/net/dev`, or a
  stat file of a listed disk). The code leaves the collector half updated with the baseline error
  cleared. The model returns only the failure.
- Disk.Baseline: on failure it reports one generic I/O error. It does not report the exception
  of the first unreadable device, because the model's map has no iteration order.
- `start_sample` and `end_sample`: empty hooks.
- The `-d` interning of device names: a performance detail with no visible effect.
- The `@sector_sizes` default proc (line 175): no lookup ever reaches it.
- `@@counter_modulus` is a class variable shared by all collectors in the process. The model
  keeps a copy in each `Ready` collector. So it does not model a second collector's `baseline`
  changing the width this collector subtracts with. It models one collector per process.
- `@root` and the choice of `df` command line (lines 101-106). The model takes the `df` output
  lines as given.
- File opening, `IO.popen`, `Dir.glob` and `Dir.exist?`: their outputs are parameters.
- `Time.now`: integer timestamps supplied with each file. Real time is fractional seconds.
- `to_i` and `Integer()`: leading whitespace, underscores and other bases are not modelled.
  Both are a sign followed by decimal digits.
- `scanf("%s%d%s")` on `/proc/meminfo`: the model starts from (key, value, unit) rows. An
  unreadable `/proc/meminfo` is not modelled.
- Which `Unavailable` constant line 226 resolves to inside `DiskInventory`: the model reports
  it as Unavailable.
- An unreadable `omsadmin.conf` found by `Dir.glob`: `IO.foreach` raises, so `baseline`
  raises at line 19. The model's conf files are always readable line sequences.
- `lsblk` failures other than a missing executable (line 216 rescues only `Errno::ENOENT`):
  the code lets them propagate out of `baseline` and `get_disk_stats`. The model has no such
  failure.
- Net.DeviceToken: counts characters. The code opens `/proc/net/dev` in binary mode (line
  324), so `dev.length` counts bytes. The two differ only for non-ASCII interface names.
- `DiskInventory.new` (lines 173-177) is not modelled separately. A `Fresh` collector never
  reaches its disk store, and `baseline` replaces the store whole.
- CpuInfo.CountCpuLines: its own contract states only the bound. `CpuInfo.CountCpuLinesZero`
  and `CpuInfo.CountCpuLinesAppend` state what it counts.
- Filesystems.Compare: its own contract states only the range. The ordering laws are the three
  lemmas that follow it.
- Net.Reports: its own contract states membership only. `Net.ReportsAppend` and
  `Net.ReportsSingle` pin one report per included entry in `each_pair` order, and
  `Net.ReportsDistinct` shows no interface is reported twice.
- Filesystems.FsRows: its own contract states membership only. `Filesystems.FsRowsAppend` and
  `Filesystems.FsRowsSingle` pin one filesystem per accepted row in `df` order.
