/**
 * The snapshot builders of `SystemMonitor` (systemMonitor.py): CPU, memory,
 * disk and network records built from the operating system's counters.
 *
 * Every query to the operating system is taken here as a parameter holding
 * what the query returned; a disk-usage query that raises is a `None`.
 * Byte counters go through get_size (`HumanSize.SizeOf`); percentages and
 * packet counts are passed through unchanged.
 */
module SystemMonitor {
  import opened Wrappers
  import opened HumanSize

  // ---------------------------------------------------------------------
  // What the operating-system queries return
  // ---------------------------------------------------------------------

  /** The current clock frequency, in MHz, when the platform reports one. */
  datatype CpuFreq = CpuFreq(current: real)

  /** Virtual-memory counters: three byte counts and the percentage in use. */
  datatype VirtualMemory = VirtualMemory(total: nat, available: nat, used: nat, percent: real)

  /** A mounted partition. */
  datatype Partition = Partition(device: string, mountpoint: string)

  /** Usage of one mounted file system: three byte counts and the percentage in use. */
  datatype DiskUsage = DiskUsage(total: nat, used: nat, free: nat, percent: real)

  /** Cumulative network counters since boot. */
  datatype NetIoCounters = NetIoCounters(bytesSent: nat, bytesRecv: nat, packetsSent: nat, packetsRecv: nat)

  // ---------------------------------------------------------------------
  // The records the monitor builds
  // ---------------------------------------------------------------------

  /** The frequency field: a value in MHz, or the text "N/A". */
  datatype Frequency = MHz(mhz: real) | NotAvailable

  datatype CpuInfo = CpuInfo(
    usagePerCpu: seq<real>,
    avgUsage: real,
    currentFreq: Frequency,
    cores: Option<nat>,
    threads: Option<nat>)

  datatype MemoryInfo = MemoryInfo(
    total: Option<Size>,
    available: Option<Size>,
    used: Option<Size>,
    percentage: real)

  datatype DiskEntry = DiskEntry(
    device: string,
    mountpoint: string,
    total: Option<Size>,
    used: Option<Size>,
    free: Option<Size>,
    percentage: real)

  datatype NetworkInfo = NetworkInfo(
    bytesSent: Option<Size>,
    bytesReceived: Option<Size>,
    packetsSent: nat,
    packetsReceived: nat)

  /** The exception raised while building a record. */
  datatype Error = ZeroDivisionError

  // ---------------------------------------------------------------------
  // get_cpu_info
  // ---------------------------------------------------------------------

  /** The sum of a sample, added up from the left. */
  function Sum(s: seq<real>): (r: real) {
    if s == [] then 0.0 else Sum(s[..|s| - 1]) + s[|s| - 1]
  }

  /**
   * get_cpu_info, given the per-core sample, the frequency query's result
   * and the two core counts. The average divides the sum by the number of
   * cores sampled, so an empty sample raises.
   */
  function GetCpuInfo(usage: seq<real>, freq: Option<CpuFreq>, cores: Option<nat>, threads: Option<nat>)
    : (r: Result<CpuInfo, Error>)
    ensures r.Failure? <==> usage == []
    ensures r.Success? ==>
      && r.value.usagePerCpu == usage
      && r.value.avgUsage * (|usage| as real) == Sum(usage)
      && (r.value.currentFreq.MHz? <==> freq.Some?)
      && (freq.Some? ==> r.value.currentFreq.mhz == freq.value.current)
      && r.value.cores == cores
      && r.value.threads == threads
  {
    if usage == [] then
      Failure(ZeroDivisionError)
    else
      var n := |usage| as real;
      DivTimes(Sum(usage), n);
      Success(CpuInfo(
        usagePerCpu := usage,
        avgUsage := Sum(usage) / n,
        currentFreq := if freq.Some? then MHz(freq.value.current) else NotAvailable,
        cores := cores,
        threads := threads))
  }

  /** A sample whose values lie in [lo, hi] sums to between n * lo and n * hi. */
  lemma {:induction false} SumWithin(s: seq<real>, lo: real, hi: real)
    requires forall i :: 0 <= i < |s| ==> lo <= s[i] <= hi
    ensures (|s| as real) * lo <= Sum(s) <= (|s| as real) * hi
  {
    if s != [] {
      SumWithin(s[..|s| - 1], lo, hi);
    }
  }

  /** The average usage lies between the least and the greatest per-core usage. */
  lemma AverageWithin(usage: seq<real>, freq: Option<CpuFreq>, cores: Option<nat>, threads: Option<nat>, lo: real, hi: real)
    requires usage != []
    requires forall i :: 0 <= i < |usage| ==> lo <= usage[i] <= hi
    ensures GetCpuInfo(usage, freq, cores, threads).Success?
    ensures lo <= GetCpuInfo(usage, freq, cores, threads).value.avgUsage <= hi
  {
    var n := |usage| as real;
    var avg := GetCpuInfo(usage, freq, cores, threads).value.avgUsage;
    SumWithin(usage, lo, hi);
    assert n * lo <= avg * n <= n * hi;
    ScaleDown(avg, lo, n);
    ScaleDown(hi, avg, n);
  }

  /** Inequalities between multiples of a positive number carry over to the factors. */
  lemma ScaleDown(x: real, y: real, n: real)
    requires n > 0.0 && x * n >= y * n
    ensures x >= y
  {
  }

  // ---------------------------------------------------------------------
  // get_memory_info and get_network_info
  // ---------------------------------------------------------------------

  /** get_memory_info: byte counts humanised, the percentage passed through. */
  function GetMemoryInfo(memory: VirtualMemory): (r: MemoryInfo)
    ensures IsReading(r.total, memory.total as real)
    ensures IsReading(r.available, memory.available as real)
    ensures IsReading(r.used, memory.used as real)
    ensures r.percentage == memory.percent
  {
    MemoryInfo(
      total := SizeOf(memory.total as real),
      available := SizeOf(memory.available as real),
      used := SizeOf(memory.used as real),
      percentage := memory.percent)
  }

  /** get_network_info: byte counters humanised, packet counters passed through. */
  function GetNetworkInfo(network: NetIoCounters): (r: NetworkInfo)
    ensures IsReading(r.bytesSent, network.bytesSent as real)
    ensures IsReading(r.bytesReceived, network.bytesRecv as real)
    ensures r.packetsSent == network.packetsSent
    ensures r.packetsReceived == network.packetsRecv
  {
    NetworkInfo(
      bytesSent := SizeOf(network.bytesSent as real),
      bytesReceived := SizeOf(network.bytesRecv as real),
      packetsSent := network.packetsSent,
      packetsReceived := network.packetsRecv)
  }

  // ---------------------------------------------------------------------
  // get_disk_info
  // ---------------------------------------------------------------------

  /** The entry for one partition whose usage query succeeded. */
  function DiskEntryOf(partition: Partition, usage: DiskUsage): (e: DiskEntry)
    ensures e.device == partition.device && e.mountpoint == partition.mountpoint
    ensures IsReading(e.total, usage.total as real)
    ensures IsReading(e.used, usage.used as real)
    ensures IsReading(e.free, usage.free as real)
    ensures e.percentage == usage.percent
  {
    DiskEntry(
      device := partition.device,
      mountpoint := partition.mountpoint,
      total := SizeOf(usage.total as real),
      used := SizeOf(usage.used as real),
      free := SizeOf(usage.free as real),
      percentage := usage.percent)
  }

  /**
   * The records get_disk_info returns for `partitions`, where `usageOf`
   * gives the outcome of the usage query on a mount point.
   */
  function DiskInfo(partitions: seq<Partition>, usageOf: string -> Option<DiskUsage>): (r: seq<DiskEntry>)
    ensures |r| <= |partitions|
  {
    if partitions == [] then []
    else
      var last := partitions[|partitions| - 1];
      DiskInfo(partitions[..|partitions| - 1], usageOf)
      + match usageOf(last.mountpoint)
        case None => []
        case Some(usage) => [DiskEntryOf(last, usage)]
  }

  /** get_disk_info as the source writes it: a loop that appends, skipping failed queries. */
  method GetDiskInfo(partitions: seq<Partition>, usageOf: string -> Option<DiskUsage>)
    returns (diskInfo: seq<DiskEntry>)
    ensures diskInfo == DiskInfo(partitions, usageOf)
  {
    diskInfo := [];
    for i := 0 to |partitions|
      invariant diskInfo == DiskInfo(partitions[..i], usageOf)
    {
      var partition := partitions[i];
      assert partitions[..i + 1][..i] == partitions[..i];
      match usageOf(partition.mountpoint)
      case None =>
        continue;
      case Some(usage) =>
        diskInfo := diskInfo + [DiskEntryOf(partition, usage)];
    }
    assert partitions[..|partitions|] == partitions;
  }

  /** The positions, in increasing order, of the partitions whose usage query succeeds. */
  function KeptIndices(partitions: seq<Partition>, usageOf: string -> Option<DiskUsage>): (r: seq<nat>) {
    if partitions == [] then []
    else
      var n := |partitions| - 1;
      KeptIndices(partitions[..n], usageOf)
      + if usageOf(partitions[n].mountpoint).Some? then [n] else []
  }

  /**
   * The kept positions are exactly the positions whose usage query
   * succeeds, listed in increasing order.
   */
  lemma {:induction false} KeptIndicesExact(partitions: seq<Partition>, usageOf: string -> Option<DiskUsage>)
    ensures var kept := KeptIndices(partitions, usageOf);
      && (forall j :: 0 <= j < |kept| ==> kept[j] < |partitions| && usageOf(partitions[kept[j]].mountpoint).Some?)
      && (forall j, j' :: 0 <= j < j' < |kept| ==> kept[j] < kept[j'])
      && (forall i :: 0 <= i < |partitions| && usageOf(partitions[i].mountpoint).Some? ==> i in kept)
  {
    if partitions != [] {
      var n := |partitions| - 1;
      var init := partitions[..n];
      KeptIndicesExact(init, usageOf);
      var before := KeptIndices(init, usageOf);
      var kept := KeptIndices(partitions, usageOf);
      assert forall i :: 0 <= i < n ==> init[i] == partitions[i];
      assert forall j :: 0 <= j < |before| ==> before[j] < |init| == n;
      if usageOf(partitions[n].mountpoint).Some? {
        assert kept == before + [n];
      } else {
        assert kept == before;
      }
    }
  }

  /**
   * get_disk_info keeps exactly the partitions whose usage query succeeds,
   * in their original order: its j-th record describes the partition at the
   * j-th kept position (see KeptIndicesExact for which positions those are).
   */
  lemma {:induction false} DiskInfoSelects(partitions: seq<Partition>, usageOf: string -> Option<DiskUsage>)
    ensures var kept := KeptIndices(partitions, usageOf);
      && |DiskInfo(partitions, usageOf)| == |kept|
      && (forall j :: 0 <= j < |kept| ==>
            && kept[j] < |partitions|
            && usageOf(partitions[kept[j]].mountpoint).Some?
            && DiskInfo(partitions, usageOf)[j]
               == DiskEntryOf(partitions[kept[j]], usageOf(partitions[kept[j]].mountpoint).value))
  {
    KeptIndicesExact(partitions, usageOf);
    if partitions != [] {
      var n := |partitions| - 1;
      var init := partitions[..n];
      DiskInfoSelects(init, usageOf);
      var before, records := KeptIndices(init, usageOf), DiskInfo(init, usageOf);
      var kept, all := KeptIndices(partitions, usageOf), DiskInfo(partitions, usageOf);
      assert forall i :: 0 <= i < n ==> init[i] == partitions[i];
      match usageOf(partitions[n].mountpoint)
      case None =>
        assert kept == before && all == records;
      case Some(usage) =>
        assert kept == before + [n] && all == records + [DiskEntryOf(partitions[n], usage)];
    }
  }

  /** get_disk_info never returns more entries than there are partitions, and as many exactly when every query succeeds. */
  lemma {:induction false} DiskInfoLength(partitions: seq<Partition>, usageOf: string -> Option<DiskUsage>)
    ensures |DiskInfo(partitions, usageOf)| <= |partitions|
    ensures |DiskInfo(partitions, usageOf)| == |partitions|
            <==> forall i :: 0 <= i < |partitions| ==> usageOf(partitions[i].mountpoint).Some?
  {
    if partitions != [] {
      var n := |partitions| - 1;
      var init := partitions[..n];
      DiskInfoLength(init, usageOf);
      var records, all := DiskInfo(init, usageOf), DiskInfo(partitions, usageOf);
      assert forall i :: 0 <= i < n ==> init[i] == partitions[i];
      match usageOf(partitions[n].mountpoint)
      case None =>
        assert all == records;
      case Some(usage) =>
        assert all == records + [DiskEntryOf(partitions[n], usage)];
        if forall i :: 0 <= i < n ==> usageOf(init[i].mountpoint).Some? {
          assert forall i :: 0 <= i < |partitions| ==> usageOf(partitions[i].mountpoint).Some?;
        }
    }
  }

  /**
   * The partitions are handled one by one: the records for a concatenation
   * are the records for each part, so a failing query anywhere leaves the
   * other partitions' records as they are.
   */
  lemma {:induction false} DiskInfoAppend(front: seq<Partition>, back: seq<Partition>, usageOf: string -> Option<DiskUsage>)
    ensures DiskInfo(front + back, usageOf) == DiskInfo(front, usageOf) + DiskInfo(back, usageOf)
  {
    if back == [] {
      assert front + back == front;
    } else {
      var n := |back| - 1;
      assert (front + back)[..|front + back| - 1] == front + back[..n];
      DiskInfoAppend(front, back[..n], usageOf);
    }
  }

  /** When exactly one of N usage queries fails, get_disk_info returns N - 1 records. */
  lemma DiskInfoOneFailure(partitions: seq<Partition>, usageOf: string -> Option<DiskUsage>, k: nat)
    requires k < |partitions|
    requires usageOf(partitions[k].mountpoint).None?
    requires forall i :: 0 <= i < |partitions| && i != k ==> usageOf(partitions[i].mountpoint).Some?
    ensures |DiskInfo(partitions, usageOf)| == |partitions| - 1
  {
    var failing := partitions[k];
    var front, back := partitions[..k], partitions[k + 1..];
    var upTo := front + [failing];
    assert partitions == upTo + back;
    assert |DiskInfo(front, usageOf)| == |front| by {
      assert forall i :: 0 <= i < |front| ==> front[i] == partitions[i];
      DiskInfoLength(front, usageOf);
    }
    assert |DiskInfo(back, usageOf)| == |back| by {
      assert forall i :: 0 <= i < |back| ==> back[i] == partitions[k + 1 + i];
      DiskInfoLength(back, usageOf);
    }
    assert DiskInfo(upTo, usageOf) == DiskInfo(front, usageOf) by {
      assert upTo[..|upTo| - 1] == front;
    }
    DiskInfoAppend(upTo, back, usageOf);
  }
}
