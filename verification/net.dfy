/** `RawNetData`, `NetData` and the readers of `/proc/net/dev` and `/proc/net/route`:
    per-interface byte counters, their wrap-corrected deltas and the report policy. */
module Net {

  import opened Wrappers
  import opened Text
  import opened WrappingCounter

  /** One line of `/proc/net/dev`, with whether the interface has a route (is "up"). */
  datatype RawNetData = RawNetData(device: string, time: int, up: bool, bytesReceived: int, bytesSent: int)

  /** The change between two readings of an interface. */
  datatype NetData = NetData(device: string, deltaTime: int, bytesReceived: int, bytesSent: int)

  /** `RawNetData#-`: no check that both readings are of the same interface. */
  function Diff(m: nat, cur: RawNetData, prev: RawNetData): (d: NetData)
    requires m > 0
    ensures d.device == cur.device
    ensures prev.time + d.deltaTime == cur.time
    ensures IsIncrease(m, cur.bytesReceived, prev.bytesReceived, d.bytesReceived)
    ensures IsIncrease(m, cur.bytesSent, prev.bytesSent, d.bytesSent)
  {
    SubWithWrapUndoes(m, cur.bytesReceived, prev.bytesReceived);
    SubWithWrapUndoes(m, cur.bytesSent, prev.bytesSent);
    NetData(cur.device, cur.time - prev.time,
            SubWithWrap(m, cur.bytesReceived, prev.bytesReceived),
            SubWithWrap(m, cur.bytesSent, prev.bytesSent))
  }

  /** `NetData#active?` */
  predicate Active(d: NetData) {
    d.bytesReceived > 0 || d.bytesSent > 0
  }

  lemma WrapIsZero(m: nat, a: int, b: int)
    requires m > 0
    ensures SubWithWrap(m, a, b) == 0 <==> a % m == b % m
  {
    SubWithWrapUndoes(m, a, b);
    if a % m == b % m {
      var qa, qb := a / m, b / m;
      assert 0 - (a - b) == (qb - qa) * m;
      DivModUnique(0 - (a - b), m, qb - qa, 0);
      SubWithWrapUnique(m, a, b, 0);
    }
  }

  /** A delta is active exactly when one of the two byte counters moved, modulo the width. */
  lemma ActiveIffCounterMoved(m: nat, cur: RawNetData, prev: RawNetData)
    requires m > 0
    ensures Active(Diff(m, cur, prev)) <==>
              cur.bytesReceived % m != prev.bytesReceived % m || cur.bytesSent % m != prev.bytesSent % m
  {
    WrapIsZero(m, cur.bytesReceived, prev.bytesReceived);
    WrapIsZero(m, cur.bytesSent, prev.bytesSent);
  }

  /** Lines 330-331: an interface token is shorter than 10 characters and ends with ':';
      the name is the token without its colon. */
  function DeviceToken(w: string): (r: Option<string>)
    ensures r.Some? <==> |w| < 10 && EndsWith(w, ":")
    ensures r.Some? ==> r.value + ":" == w && |r.value| <= 8
  {
    if |w| < 10 && EndsWith(w, ":") then Some(w[..|w| - 1]) else None
  }

  /** A Ruby Hash from interface name to reading: the names in insertion order and the map. */
  datatype Snapshot = Snapshot(order: seq<string>, readings: map<string, RawNetData>)

  ghost predicate ValidSnapshot(s: Snapshot)
  {
    && (forall i, j :: 0 <= i < j < |s.order| ==> s.order[i] != s.order[j])
    && (forall d :: d in s.readings <==> d in s.order)
    && (forall d :: d in s.readings ==> s.readings[d].device == d)
  }

  /** `result[dev] = reading`: a new name goes to the end; a known one keeps its place. */
  function Insert(s: Snapshot, r: RawNetData): (s': Snapshot)
    requires ValidSnapshot(s)
    ensures ValidSnapshot(s')
    ensures s'.readings == s.readings[r.device := r]
    ensures s'.order == if r.device in s.readings then s.order else s.order + [r.device]
  {
    if r.device in s.readings then s.(readings := s.readings[r.device := r])
    else Snapshot(s.order + [r.device], s.readings[r.device := r])
  }

  /** The readings in insertion order, as `each_pair` visits them. */
  function Entries(s: Snapshot): (es: seq<RawNetData>)
    requires ValidSnapshot(s)
    ensures |es| == |s.order|
    ensures forall i :: 0 <= i < |es| ==> es[i] == s.readings[s.order[i]]
  {
    seq(|s.order|, i requires 0 <= i < |s.order| => s.readings[s.order[i]])
  }

  /** `/proc/net/dev` as the host presents it: the time it was read and its lines. */
  datatype NetDevFile = NetDevFile(time: int, lines: seq<string>)

  /** One line of `/proc/net/dev`: blank lines, tokens that are not interface names and
      virtual interfaces are skipped; word 1 is bytes received and word 9 bytes sent. */
  function NetDevLine(line: string, time: int, up: set<string>, isVirtual: set<string>): (r: Option<RawNetData>)
    ensures var w := Words(line);
      r.Some? <==> |w| > 0 && DeviceToken(w[0]).Some? && DeviceToken(w[0]).value !in isVirtual
    ensures r.Some? ==> var w := Words(line);
      && |w| > 0 && DeviceToken(w[0]) == Some(r.value.device)
      && r.value.device !in isVirtual
      && r.value == RawNetData(r.value.device, time, r.value.device in up, FieldToI(w, 1), FieldToI(w, 9))
  {
    var w := Words(line);
    if |w| == 0 then None
    else match DeviceToken(w[0])
      case None => None
      case Some(dev) =>
        if dev in isVirtual then None
        else Some(RawNetData(dev, time, dev in up, FieldToI(w, 1), FieldToI(w, 9)))
  }

  /** `o` is a reading of interface `d`. */
  predicate Names(o: Option<RawNetData>, d: string) {
    o.Some? && o.value.device == d
  }

  /** `r` is the last reading of `d` among `rs`. */
  predicate LastReading(rs: seq<Option<RawNetData>>, d: string, r: RawNetData) {
    exists i :: 0 <= i < |rs| && rs[i] == Some(r) && forall j :: i < j < |rs| ==> !Names(rs[j], d)
  }

  /** Storing the last reading keeps every stored reading the last of its interface. */
  lemma LastReadingStep(rs: seq<Option<RawNetData>>, s: Snapshot)
    requires |rs| > 0 && ValidSnapshot(s)
    requires forall d :: d in s.readings ==> LastReading(rs[..|rs| - 1], d, s.readings[d])
    ensures var s' := if rs[|rs| - 1].None? then s else Insert(s, rs[|rs| - 1].value);
      forall d :: d in s'.readings ==> LastReading(rs, d, s'.readings[d])
  {
    var last := |rs| - 1;
    var init := rs[..last];
    var s' := if rs[last].None? then s else Insert(s, rs[last].value);
    forall d | d in s'.readings
      ensures LastReading(rs, d, s'.readings[d])
    {
      if Names(rs[last], d) {
        assert rs[last] == Some(s'.readings[d]);
      } else {
        assert d in s.readings && s'.readings[d] == s.readings[d];
        var i :| 0 <= i < |init| && init[i] == Some(s.readings[d])
                 && forall j :: i < j < |init| ==> !Names(init[j], d);
        assert rs[i] == init[i];
        assert forall j :: i < j < last ==> rs[j] == init[j];
      }
    }
  }

  /** Stores each accepted reading in turn, as `get_net_data` does with `result[dev] = ...`:
      a later line for the same interface overwrites the earlier reading. */
  function Collect(rs: seq<Option<RawNetData>>): (s: Snapshot)
    ensures ValidSnapshot(s)
    ensures forall d :: d in s.readings ==> LastReading(rs, d, s.readings[d])
  {
    if |rs| == 0 then Snapshot([], map[])
    else
      var s := Collect(rs[..|rs| - 1]);
      LastReadingStep(rs, s);
      if rs[|rs| - 1].None? then s else Insert(s, rs[|rs| - 1].value)
  }

  /** A name is stored exactly when some accepted reading carries it. */
  lemma {:induction false} CollectKeys(rs: seq<Option<RawNetData>>, dev: string)
    ensures dev in Collect(rs).readings <==> exists i :: 0 <= i < |rs| && rs[i].Some? && rs[i].value.device == dev
  {
    if |rs| > 0 {
      var last := |rs| - 1;
      var init := rs[..last];
      CollectKeys(init, dev);
      if exists i :: 0 <= i < |rs| && rs[i].Some? && rs[i].value.device == dev {
        var i :| 0 <= i < |rs| && rs[i].Some? && rs[i].value.device == dev;
        if i < last {
          assert init[i] == rs[i];
        }
      }
      if exists i :: 0 <= i < |init| && init[i].Some? && init[i].value.device == dev {
        var i :| 0 <= i < |init| && init[i].Some? && init[i].value.device == dev;
        assert rs[i] == init[i];
      }
    }
  }

  /** The first position among `rs` with a reading of `d`, or `|rs|` when there is none. */
  function FirstIndex(rs: seq<Option<RawNetData>>, d: string): (k: nat)
    ensures k <= |rs|
    ensures k < |rs| ==> Names(rs[k], d)
    ensures forall j :: 0 <= j < k ==> !Names(rs[j], d)
  {
    if |rs| == 0 then 0
    else if Names(rs[0], d) then 0
    else 1 + FirstIndex(rs[1..], d)
  }

  /** Dropping the last reading moves no first position that lies before it. */
  lemma FirstIndexInit(rs: seq<Option<RawNetData>>, d: string)
    requires |rs| > 0
    ensures var init := rs[..|rs| - 1];
      && (FirstIndex(init, d) < |init| ==> FirstIndex(rs, d) == FirstIndex(init, d))
      && (FirstIndex(init, d) == |init| ==> FirstIndex(rs, d) == if Names(rs[|rs| - 1], d) then |init| else |rs|)
  {
    var init := rs[..|rs| - 1];
    var k, k' := FirstIndex(init, d), FirstIndex(rs, d);
    assert forall j :: 0 <= j < |init| ==> rs[j] == init[j];
    if k < |init| {
      assert init[k] == rs[k];
    }
  }

  /** One step of `Collect`: the last reading, if any, is stored into the hash of the others. */
  lemma CollectStep(rs: seq<Option<RawNetData>>)
    requires |rs| > 0
    ensures ValidSnapshot(Collect(rs[..|rs| - 1]))
    ensures Collect(rs) == if rs[|rs| - 1].None? then Collect(rs[..|rs| - 1])
                           else Insert(Collect(rs[..|rs| - 1]), rs[|rs| - 1].value)
  {
  }

  /** `order` lists names that have a reading among `rs`, in the order of their first readings. */
  predicate OrderedByFirst(rs: seq<Option<RawNetData>>, order: seq<string>) {
    && (forall i :: 0 <= i < |order| ==> FirstIndex(rs, order[i]) < |rs|)
    && (forall i, j :: 0 <= i < j < |order| ==> FirstIndex(rs, order[i]) < FirstIndex(rs, order[j]))
  }

  /** A later reading does not disturb the order of the names read before it. */
  lemma OrderedByFirstExtend(rs: seq<Option<RawNetData>>, order: seq<string>)
    requires |rs| > 0 && OrderedByFirst(rs[..|rs| - 1], order)
    ensures OrderedByFirst(rs, order)
  {
    forall i | 0 <= i < |order|
      ensures FirstIndex(rs, order[i]) == FirstIndex(rs[..|rs| - 1], order[i])
    {
      FirstIndexInit(rs, order[i]);
    }
  }

  /** A name first read by the last reading goes to the end of the order. */
  lemma OrderedByFirstAppend(rs: seq<Option<RawNetData>>, order: seq<string>, d: string)
    requires |rs| > 0 && OrderedByFirst(rs, order)
    requires FirstIndex(rs[..|rs| - 1], d) == |rs| - 1 && Names(rs[|rs| - 1], d) && d !in order
    ensures OrderedByFirst(rs, order + [d])
  {
    FirstIndexInit(rs, d);
    var o := order + [d];
    forall i | 0 <= i < |o|
      ensures FirstIndex(rs, o[i]) < |rs|
    {
      if i < |order| {
        assert o[i] == order[i];
      }
    }
    forall i, j | 0 <= i < j < |o|
      ensures FirstIndex(rs, o[i]) < FirstIndex(rs, o[j])
    {
      assert o[i] == order[i];
      if j < |order| {
        assert o[j] == order[j];
      } else {
        assert o[j] == d && order[i] != d;
      }
    }
  }

  /** The insertion order of the collected hash: every stored name has an accepted reading,
      and names appear in the order of their first accepted readings. */
  lemma {:induction false} CollectOrder(rs: seq<Option<RawNetData>>)
    ensures OrderedByFirst(rs, Collect(rs).order)
  {
    if |rs| > 0 {
      var last := |rs| - 1;
      var init := rs[..last];
      CollectOrder(init);
      var s := Collect(init);
      CollectStep(rs);
      OrderedByFirstExtend(rs, s.order);
      if rs[last].Some? && rs[last].value.device !in s.readings {
        var d := rs[last].value.device;
        CollectKeys(init, d);
        assert FirstIndex(init, d) == last;
        OrderedByFirstAppend(rs, s.order, d);
        assert Collect(rs).order == s.order + [d];
      } else {
        assert Collect(rs).order == s.order;
      }
    }
  }

  /** The reading each line of the file yields, if any. */
  function Accepted(file: NetDevFile, up: set<string>, isVirtual: set<string>): (rs: seq<Option<RawNetData>>)
    ensures |rs| == |file.lines|
    ensures forall i :: 0 <= i < |rs| ==> rs[i] == NetDevLine(file.lines[i], file.time, up, isVirtual)
  {
    seq(|file.lines|, i requires 0 <= i < |file.lines| => NetDevLine(file.lines[i], file.time, up, isVirtual))
  }

  /** `get_net_data`: every accepted line stored under its interface name, in file order. */
  function ParseNetDev(file: NetDevFile, up: set<string>, isVirtual: set<string>): (s: Snapshot)
    ensures ValidSnapshot(s)
    ensures forall d :: d in s.readings ==>
              && |d| <= 8 && d !in isVirtual && (d == "" || IsWord(d))
              && s.readings[d].up == (d in up) && s.readings[d].time == file.time
  {
    var rs := Accepted(file, up, isVirtual);
    var s := Collect(rs);
    assert forall d :: d in s.readings ==>
             |d| <= 8 && d !in isVirtual && (d == "" || IsWord(d))
             && s.readings[d].up == (d in up) && s.readings[d].time == file.time by {
      forall d | d in s.readings
        ensures |d| <= 8 && d !in isVirtual && (d == "" || IsWord(d))
                && s.readings[d].up == (d in up) && s.readings[d].time == file.time
      {
        var i :| 0 <= i < |rs| && rs[i] == Some(s.readings[d])
                 && forall j :: i < j < |rs| ==> !Names(rs[j], d);
        var w := Words(file.lines[i]);
        assert d + ":" == w[0] && IsWord(w[0]);
        assert forall k :: 0 <= k < |d| ==> d[k] == w[0][k];
      }
    }
    s
  }

  /** When several lines name the same interface, the last of them is the one kept. */
  lemma ParseNetDevLastWins(file: NetDevFile, up: set<string>, isVirtual: set<string>, dev: string)
    requires dev in ParseNetDev(file, up, isVirtual).readings
    ensures exists i :: 0 <= i < |file.lines|
              && NetDevLine(file.lines[i], file.time, up, isVirtual) == Some(ParseNetDev(file, up, isVirtual).readings[dev])
              && forall j :: i < j < |file.lines| ==> !Names(NetDevLine(file.lines[j], file.time, up, isVirtual), dev)
  {
    var rs := Accepted(file, up, isVirtual);
    var i :| 0 <= i < |rs| && rs[i] == Some(Collect(rs).readings[dev])
             && forall j :: i < j < |rs| ==> !Names(rs[j], dev);
    assert forall j :: i < j < |file.lines| ==> rs[j] == NetDevLine(file.lines[j], file.time, up, isVirtual);
  }
  /** The interfaces of `get_net_data`'s hash are in the order of the lines that first name
      them, which is the order in which `get_net_stats` visits them. */
  lemma ParseNetDevOrder(file: NetDevFile, up: set<string>, isVirtual: set<string>)
    ensures OrderedByFirst(Accepted(file, up, isVirtual), ParseNetDev(file, up, isVirtual).order)
  {
    CollectOrder(Accepted(file, up, isVirtual));
  }


  /** An interface is in the snapshot exactly when some line of the file is accepted for it. */
  lemma ParseNetDevKeys(file: NetDevFile, up: set<string>, isVirtual: set<string>, dev: string)
    ensures dev in ParseNetDev(file, up, isVirtual).readings <==>
              exists i :: 0 <= i < |file.lines| && NetDevLine(file.lines[i], file.time, up, isVirtual).Some?
                                                && NetDevLine(file.lines[i], file.time, up, isVirtual).value.device == dev
  {
    var rs := Accepted(file, up, isVirtual);
    CollectKeys(rs, dev);
  }

  /** What `get_up_net_devices` takes from a route line, as written: the text before the
      first space character (`partition(" ")`), the whole line when there is none. */
  function RouteDeviceAsWritten(line: string): (dev: string)
    ensures StartsWith(line, dev) && ' ' !in dev
    ensures |dev| < |line| ==> line[|dev|] == ' '
  {
    line[..IndexOf(line, ' ')]
  }

  /** What it evidently means to take: the first whitespace-separated word, "" for a blank line. */
  function RouteDevice(line: string): (dev: string)
    ensures dev == "" <==> forall i :: 0 <= i < |line| ==> IsSpace(line[i])
    ensures dev != "" ==> IsWord(dev) && exists k :: FirstWordAt(line, dev, k)
  {
    FirstWord(line);
    var w := Words(line);
    if |w| == 0 then "" else w[0]
  }

  /** `get_up_net_devices` as written: every non-empty route-line prefix after the header;
      an unreadable `/proc/net/route` gives the empty set. */
  function UpDevicesAsWritten(route: Option<seq<string>>): (up: set<string>)
    ensures forall d :: d in up <==> d != "" && route.Some? && exists i :: 1 <= i < |route.value| && RouteDeviceAsWritten(route.value[i]) == d
  {
    if route.None? then {}
    else set i | 1 <= i < |route.value| && RouteDeviceAsWritten(route.value[i]) != "" :: RouteDeviceAsWritten(route.value[i])
  }

  /** `get_up_net_devices`, corrected to split on any whitespace. */
  function UpDevices(route: Option<seq<string>>): (up: set<string>)
    ensures forall d :: d in up <==> d != "" && route.Some? && exists i :: 1 <= i < |route.value| && RouteDevice(route.value[i]) == d
  {
    if route.None? then {}
    else set i | 1 <= i < |route.value| && RouteDevice(route.value[i]) != "" :: RouteDevice(route.value[i])
  }

  /** `/proc/net/route` separates its columns with tabs and pads each line with spaces, so the
      code as written keeps the whole row up to the padding, never the bare interface name,
      and no interface is ever considered up; the corrected reading finds it. */
  lemma RouteTableTabs(name: string, columns: string, padding: string)
    requires IsWord(name) && ' ' !in columns
    requires padding == "" || padding[0] == ' '
    ensures var line := name + "\t" + columns + padding;
      && RouteDeviceAsWritten(line) == name + "\t" + columns
      && RouteDeviceAsWritten(line) != name
      && RouteDevice(line) == name
      && name !in UpDevicesAsWritten(Some(["Iface\tDestination\tGateway \n", line]))
      && name in UpDevices(Some(["Iface\tDestination\tGateway \n", line]))
  {
    var line := name + "\t" + columns + padding;
    var prefix := name + "\t" + columns;
    assert ' ' !in prefix by {
      assert forall i :: 0 <= i < |name| ==> name[i] != ' ';
    }
    assert line == prefix + padding;
    IndexOfAfter(prefix, padding, ' ');
    WordsCons(name, '\t', columns + padding);
    assert line == name + ['\t'] + (columns + padding);
    var route := ["Iface\tDestination\tGateway \n", line];
    assert RouteDevice(route[1]) == name;
  }

  /** What `get_net_stats` reports for one interface. */
  datatype NetReport = FirstSeen(raw: RawNetData) | Delta(delta: NetData) {
    function Device(): string {
      match this
      case FirstSeen(r) => r.device
      case Delta(d) => d.device
    }
  }

  /** Lines 136-140: a new interface is reported as its raw reading if it is up; a known one
      as its delta if it is up or the delta is active. */
  predicate Included(m: nat, saved: map<string, RawNetData>, cur: RawNetData)
    requires m > 0
  {
    if cur.device in saved then cur.up || Active(Diff(m, cur, saved[cur.device])) else cur.up
  }

  function ReportOf(m: nat, saved: map<string, RawNetData>, cur: RawNetData): (r: NetReport)
    requires m > 0
    ensures r.Device() == cur.device
  {
    if cur.device in saved then Delta(Diff(m, cur, saved[cur.device])) else FirstSeen(cur)
  }

  /** The `each_pair` loop of `get_net_stats`: the report of every included reading, in order. */
  function Reports(m: nat, saved: map<string, RawNetData>, entries: seq<RawNetData>): (rs: seq<NetReport>)
    requires m > 0
    ensures |rs| <= |entries|
    ensures forall r :: r in rs ==> exists e :: e in entries && Included(m, saved, e) && r == ReportOf(m, saved, e)
    ensures forall e :: e in entries && Included(m, saved, e) ==> ReportOf(m, saved, e) in rs
  {
    if |entries| == 0 then []
    else
      var init := entries[..|entries| - 1];
      var e := entries[|entries| - 1];
      var rs := Reports(m, saved, init);
      assert forall x :: x in entries ==> x in init || x == e;
      assert forall x :: x in init ==> x in entries;
      if Included(m, saved, e) then rs + [ReportOf(m, saved, e)] else rs
  }

  /** Reporting a concatenation of entries reports each part in turn. */
  lemma {:induction false} ReportsAppend(m: nat, saved: map<string, RawNetData>, a: seq<RawNetData>, b: seq<RawNetData>)
    requires m > 0
    ensures Reports(m, saved, a + b) == Reports(m, saved, a) + Reports(m, saved, b)
  {
    if |b| == 0 {
      assert a + b == a;
    } else {
      var init := b[..|b| - 1];
      assert (a + b)[..|a + b| - 1] == a + init;
      assert (a + b)[|a + b| - 1] == b[|b| - 1];
      ReportsAppend(m, saved, a, init);
    }
  }

  /** One entry is reported once, as its own report, exactly when it is included. */
  lemma ReportsSingle(m: nat, saved: map<string, RawNetData>, e: RawNetData)
    requires m > 0
    ensures Reports(m, saved, [e]) == if Included(m, saved, e) then [ReportOf(m, saved, e)] else []
  {
    assert [e][..0] == [];
  }

  /** Entries of distinct interfaces give reports of distinct interfaces: no interface is
      reported twice. */
  lemma {:induction false} ReportsDistinct(m: nat, saved: map<string, RawNetData>, entries: seq<RawNetData>)
    requires m > 0
    requires forall i, j :: 0 <= i < j < |entries| ==> entries[i].device != entries[j].device
    ensures forall i, j :: 0 <= i < j < |Reports(m, saved, entries)| ==>
              Reports(m, saved, entries)[i].Device() != Reports(m, saved, entries)[j].Device()
  {
    if |entries| > 0 {
      var init := entries[..|entries| - 1];
      var e := entries[|entries| - 1];
      assert forall k :: 0 <= k < |init| ==> init[k] == entries[k];
      ReportsDistinct(m, saved, init);
      var rs := Reports(m, saved, init);
      assert Reports(m, saved, entries) == if Included(m, saved, e) then rs + [ReportOf(m, saved, e)] else rs;
      forall r | r in rs
        ensures r.Device() != e.device
      {
        var x :| x in init && Included(m, saved, x) && r == ReportOf(m, saved, x);
        var k :| 0 <= k < |init| && init[k] == x;
        assert entries[k] == x;
      }
      if Included(m, saved, e) {
        var rs' := rs + [ReportOf(m, saved, e)];
        forall i, j | 0 <= i < j < |rs'|
          ensures rs'[i].Device() != rs'[j].Device()
        {
          assert rs'[i] == rs[i];
          if j == |rs| {
            assert rs[i] in rs;
            assert rs'[j] == ReportOf(m, saved, e);
            assert rs'[j].Device() == e.device;
          } else {
            assert rs'[j] == rs[j];
          }
        }
      }
    }
  }

  /** Every report of a snapshot is the report of the snapshot's reading for its interface. */
  lemma ReportsSound(m: nat, saved: map<string, RawNetData>, snap: Snapshot)
    requires m > 0 && ValidSnapshot(snap)
    ensures forall r :: r in Reports(m, saved, Entries(snap)) ==>
              r.Device() in snap.readings && r == ReportOf(m, saved, snap.readings[r.Device()])
  {
    var es := Entries(snap);
    forall r | r in Reports(m, saved, es)
      ensures r.Device() in snap.readings && r == ReportOf(m, saved, snap.readings[r.Device()])
    {
      var e :| e in es && Included(m, saved, e) && r == ReportOf(m, saved, e);
      var i :| 0 <= i < |es| && es[i] == e;
      assert snap.order[i] in snap.readings;
    }
  }

  /** An interface of the snapshot is reported exactly when its reading is included. */
  lemma ReportsComplete(m: nat, saved: map<string, RawNetData>, snap: Snapshot, dev: string)
    requires m > 0 && ValidSnapshot(snap) && dev in snap.readings
    ensures (exists r :: r in Reports(m, saved, Entries(snap)) && r.Device() == dev)
              <==> Included(m, saved, snap.readings[dev])
  {
    var es := Entries(snap);
    var rs := Reports(m, saved, es);
    var i :| 0 <= i < |snap.order| && snap.order[i] == dev;
    var cur := snap.readings[dev];
    assert es[i] == cur;
    ReportsSound(m, saved, snap);
    if exists r :: r in rs && r.Device() == dev {
      var r :| r in rs && r.Device() == dev;
      assert r == ReportOf(m, saved, cur);
    }
    if Included(m, saved, cur) {
      assert ReportOf(m, saved, cur) in rs;
    }
  }
}
