# System monitor snapshot builders, modelled in Dafny

This project models the local system monitor `SystemMonitor` in
`systemMonitor.py`. Each tick, the monitor reads the operating system's CPU,
memory, disk and network counters. It turns them into records, with byte
counts shown in human-readable units. The model covers the parts with
checkable behaviour:

- `get_size` walks the unit ladder `''`, `K`, `M`, `G`, `T`, `P`. It divides the
  value by 1024 after each unit and stops at the first unit where the scaled
  value is below 1024. A value still at least 1024 after the `P` step falls
  off the end of the loop, so the function returns `None`.
- `get_cpu_info`, `get_memory_info` and `get_network_info` build one record
  each from their counters.
- `get_disk_info` builds one record per mounted partition and silently skips
  every partition whose usage query raises.

Modules:

- `Wrappers` (`wrappers.dfy`): `Option` stands for Python's `None`, and
  `Result` stands for an operation that may raise.
- `HumanSize` (`human_size.dfy`): `get_size`. `IsReading` is its
  specification: the first unit whose scaled value `bytes / 1024^k` is below
  1024, with that scaled value, or `None` when the count reaches `1024^6`.
  `Ladder` transcribes the loop as recursion, `SizeOf` is the function the
  record builders call, and `GetSize` is the loop itself, dividing in place.
  A reading is `Size(scaled, unit)`, where `unit` indexes the ladder.
- `SystemMonitor` (`system_monitor.dfy`): the record builders. Each
  operating-system query becomes a parameter holding what the query returned.
  The disk-usage query is a function from mount point to `Option<DiskUsage>`,
  where `None` means the query raised.

Sizes are exact reals. The source's division by 1024 is exact in binary
floating point for counts below 2^53. The counters psutil returns are
non-negative integers (`nat`). `get_size` itself is modelled over all reals,
so the negative case is covered too.

The docstring of `get_size` (systemMonitor.py:13) promises a human-readable
format. The code gives none for a count of at least `1024^6` bytes: the loop
ends without reaching a `return`, so the result is `None`. The model follows
the code. In `get_disk_info`, the bare `except` at systemMonitor.py:63 skips a
partition whatever its query raises, so any failed query is a `None` here.

## Model

| member | source | states |
|---|---|---|
| `HumanSize.SizeOf` | systemMonitor.py:11-18 | the result is the reading of the input: the first unit k in 0..5 with `bytes / 1024^k < 1024`, whose scaled value is `bytes / 1024^k`; or `None` when the count reaches `1024^6` |
| `HumanSize.GetSize` | systemMonitor.py:15-18 | the in-place dividing loop returns the reading of its input, and this is the same value `SizeOf` gives |
| `HumanSize.Ladder` | systemMonitor.py:15-18 | the loop transcribed as recursion from step k on; a unit it returns lies between k and the top of the ladder. `LadderReads` states what it computes |
| `HumanSize.LadderReads` | systemMonitor.py:15-18 | entered at step k after k tests that found the value at least 1024, the loop yields the reading of the original byte count |
| `HumanSize.ReadingIsUnique` | systemMonitor.py:15-18 | the specification determines the result: any result that is a reading of the input equals get_size's |
| `HumanSize.SuffixInjective` | systemMonitor.py:17 | the printed suffix `{unit}B` identifies the unit: two readings with the same suffix are in the same unit |
| `HumanSize.BelowBaseIsUnscaled` | systemMonitor.py:15-17 | any value below 1024, zero and negative values included, is returned unscaled in unit `''` |
| `HumanSize.BytesBoundaries` | systemMonitor.py:15-17 | 0 and 1023 are shown as themselves with suffix `B` |
| `HumanSize.KiloBoundary` | systemMonitor.py:15-18 | exactly 1024 is shown as 1 with suffix `KB` |
| `HumanSize.TeraBoundary` | systemMonitor.py:15-18 | exactly `1024^4` is shown as 1 with suffix `TB` |
| `HumanSize.NoneIffOffTheLadder` | systemMonitor.py:15-18 | the result is `None` if and only if the input is at least `1024^6` |
| `HumanSize.ScaledRange` | systemMonitor.py:16-18 | for a nonnegative input, the scaled value lies in [0, 1024), and is at least 1 in every unit above plain bytes |
| `HumanSize.RoundTrip` | systemMonitor.py:16-18 | a reading, which is what get_size returns, denotes its input exactly: the scaled value times the size of its unit gives back the input |
| `HumanSize.RankMonotone` | systemMonitor.py:15-18 | the unit index never decreases as the input grows, with `None` ranking above every unit |
| `SystemMonitor.GetCpuInfo` | systemMonitor.py:20-32 | an empty per-core sample raises a division by zero, and only then; otherwise the record holds the sample, an average that, times the number of per-CPU samples, gives their sum, the frequency or "N/A" when the platform reports none, and both core counts unchanged |
| `SystemMonitor.AverageWithin` | systemMonitor.py:28 | the average usage lies between any lower and upper bound of the per-core usages |
| `SystemMonitor.GetMemoryInfo` | systemMonitor.py:34-44 | total, available and used are the readings of their byte counts, and the percentage is passed through unchanged |
| `SystemMonitor.GetNetworkInfo` | systemMonitor.py:67-77 | bytes sent and received are the readings of their counters, and the packet counts are passed through unchanged |
| `SystemMonitor.DiskEntryOf` | systemMonitor.py:55-62 | a partition's record keeps its device and mount point, holds the readings of total, used and free, and passes the percentage through |
| `SystemMonitor.GetDiskInfo` | systemMonitor.py:46-65 | the appending loop, which skips a partition when its query fails, returns the records `DiskInfo` describes |
| `SystemMonitor.DiskInfo` | systemMonitor.py:46-65 | the records get_disk_info returns, never more than the partitions. `KeptIndicesExact` and `DiskInfoSelects` pin down which records and in what order |
| `SystemMonitor.KeptIndicesExact` | systemMonitor.py:52-64 | the kept positions are exactly the positions whose usage query succeeds, in increasing order |
| `SystemMonitor.DiskInfoSelects` | systemMonitor.py:52-65 | the j-th record describes the partition at the j-th kept position, and there are as many records as kept positions: exactly the partitions whose query succeeds, in their original order |
| `SystemMonitor.DiskInfoLength` | systemMonitor.py:52-65 | there are never more records than partitions, and there are exactly as many if and only if every query succeeds |
| `SystemMonitor.DiskInfoAppend` | systemMonitor.py:52-65 | the partitions are handled independently: the records for a concatenation are the records of each part, so a failing query never aborts the rest |
| `SystemMonitor.DiskInfoOneFailure` | systemMonitor.py:52-64 | when exactly one of N queries fails, there are N - 1 records |

## Left out

- The psutil queries (`cpu_freq`, `cpu_percent`, `cpu_count`, `virtual_memory`, `disk_partitions`, `disk_usage`, `net_io_counters`) are foreign calls into the operating system. Their results are parameters of the model, and a raising `disk_usage` is a `None`.
- `monitor` is an endless print-and-sleep loop with timestamps and a platform banner. It is I/O and timing only.
- The constructor and the `interval` field are left out. The field is read only by `monitor`'s sleep.
- The `KeyboardInterrupt` handler and the catch-all `except` in `monitor` are signal and exception plumbing. So is the bare `except` in `get_disk_info`, which also catches an interrupt that arrives during a usage query.
- The rendering of numbers (`:.2f` in `get_size`, `:.2f` and `:.1f` in `monitor`) is left out. A reading is modelled as its scaled value and unit, not as text. The same goes for the failure to format the text "N/A" with `:.2f` in `monitor`.
- Floating-point rounding is left out. Byte counts and usages are exact reals in the model, which matches the source only for counts below 2^53.
- HumanSize.NoneIffOffTheLadder: states the `None` boundary at exactly `1024^6` in exact arithmetic. With floats, a count in [2^60 - 64, 2^60) divides to exactly 2^50 and also gives `None`, where the model gives a `P` reading.
- SystemMonitor.AverageWithin: bounds the exact mean. The float mean can round just outside the bounds; for [0.1, 0.1, 0.1] it is 0.10000000000000002.
- The one-second blocking sample taken by `cpu_percent` is timing, so it is not modelled.
