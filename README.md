# Grid resource splitter, modelled in Dafny

`tools/grid/split_resources.py` decides how a distributed TensorFlow job is
laid out on a grid cluster. It starts from the host records `qhost`
reports. It then:

- drops the hosts that serve none of the allowed queues, or whose name
  contains an entry of the `.ignore_hosts` file;
- ranks the remaining hosts with four stable sorts and pops the first `ps`
  of them as parameter servers;
- takes the best GPU hosts of the rest as workers;
- writes the cluster spec as CSV lines (`host,port,role`) and as a JSON
  map from role to `host:port` endpoints.

This project models that core.

- `text.dfy` (`Text`): the Python string operations the tool relies on:
  - `<` on `str` (`StrLess`)
  - `in` on `str` (`Contains`)
  - `str.replace`
  - `str(n)` for the ports
  - the integer reading of the NCPU text that the corrected ranking uses
- `hosts.dfy` (`Hosts`): the host record and the sort orders.
  - An `Order` is one key ascending or descending (`reverse=True`), or a
    lexicographic pair of orders.
  - `OrderLaws` proves that every such order is a strict weak order.
- `stable_sort.dfy` (`StableSort`): `list.sort` as a stable sort. It proves:
  - the result is sorted (`SortSorted`) and a permutation (`Sort`);
  - it is stable: every class of equal keys keeps its input order
    (`SortClass`);
  - the result is unique (`SortUnique`);
  - a stable sort by `f` after a sort by `g` is one sort by `f` then `g`
    (`SortThen`).
- `eligibility.dfy` (`Eligibility`): `remove_invalid_queues`.
  - The method keeps the Python structure: the queue comprehension, then
    one comprehension per ignore entry.
  - It is proved equal to a one-pass reference filter (`Eligible`).
- `allocation.dfy` (`Allocation`): `split_hosts`.
  - `SplitHosts` runs the four in-place sorts, the `pop(0)` loop, the GPU
    filter, the worker sort and the slice.
  - It is proved equal to `Allocate`, which is one sort by the composite
    ranking `PsRanking`.
  - The lemmas about the split are stated for any ranking.
- `cluster_spec.dfy` (`ClusterSpecs`): `prepare_output`, the CSV lines and
  the JSON map of `dump_cluster_spec`, and the ports 5001 and 5002.
- `pipeline.dfy` (`Pipeline`): `main` without its I/O.

Counts are Python integers. A negative `--workers` or `--ps-nodes` value
passes `argparse`, so the model follows Python's rules for those too:

- `hc[:workers]` with a negative bound drops hosts from the end.
- `range(ps)` with a negative `ps` pops nothing.
- `pop(0)` on an empty list raises `IndexError`. This can only happen when
  the length check passes with `ps > len(hosts)`, which needs a negative
  worker count. The model returns the error `PopFromEmptyList`.

## Model

| member | source | states |
|---|---|---|
| Text.StrLess | tools/grid/split_resources.py:85 | Python's `<` on `str` holds iff `a` is a proper prefix of `b`, or `a` has the smaller character at the first position where the two differ (`FirstDifferenceLess`). |
| Text.StrLessIrreflexive | tools/grid/split_resources.py:85 | No cpu text sorts before itself. |
| Text.StrLessTrichotomy | tools/grid/split_resources.py:85 | For two cpu texts, exactly one of `a < b`, `b < a` or `a == b` holds. |
| Text.StrLessTransitive | tools/grid/split_resources.py:85 | The text order of the cpu column is transitive. |
| Text.Contains | tools/grid/split_resources.py:69 | `s in t` holds for the empty `s` and for a prefix of `t`, and only when `s` is no longer than `t`. |
| Text.ReplaceChar | tools/grid/split_resources.py:114 | `x.replace(':', ',')` keeps the length and changes exactly the ':' characters. |
| Text.ReplaceCharRoundTrip | tools/grid/split_resources.py:114 | Turning ':' into ',' can be undone when the text held no ','. |
| Text.DecimalString | tools/grid/split_resources.py:98-104 | A port prints as a non-empty string of digits. |
| Text.ParseCount | tools/grid/split_resources.py:85 | The tool never reads NCPU as a number (line 41 keeps it as text). The corrected ranking of the line-85 finding does: the reading is -1 or more, and a natural number when the text is all digits. |
| Text.ParseDecimalString | tools/grid/split_resources.py:98-104 | Reading back the printed port gives the port. |
| Hosts.KeyLaws | tools/grid/split_resources.py:83-86 | Each sort key (cuda, cuda_cores, cpu text, memory) compares as a strict weak order. |
| Hosts.OrderLaws | tools/grid/split_resources.py:83-93 | Every ascending, descending or lexicographic order is irreflexive, total up to ties, and transitive. Its ties are an equivalence. |
| StableSort.Insert | tools/grid/split_resources.py:83-86 | One insertion step adds exactly the inserted host. |
| StableSort.Sort | tools/grid/split_resources.py:83-93 | `list.sort` returns a permutation of its input. |
| StableSort.SortSorted | tools/grid/split_resources.py:83-93 | After a sort, no host ranks strictly before a host to its left. |
| StableSort.SortClass | tools/grid/split_resources.py:83-93 | The sort is stable: the hosts with equal keys keep their input order. |
| StableSort.InsertSorted | tools/grid/split_resources.py:83-86 | Inserting into a sorted list keeps it sorted. |
| StableSort.InsertClass | tools/grid/split_resources.py:83-86 | Inserting `x` appends `x` to its own class and leaves the other classes as they were. |
| StableSort.SortUnique | tools/grid/split_resources.py:83-86 | Two sorted lists with the same classes are equal, so every stable sort gives the same result. |
| StableSort.SortThen | tools/grid/split_resources.py:83-86 | A stable sort by `g` followed by a stable sort by `f` is one sort by `f`, with ties broken by `g`. |
| Eligibility.InQueues | tools/grid/split_resources.py:61 | The queue comprehension keeps exactly the hosts that serve an allowed queue. `QueueStep` ties it to the reference filter. |
| Eligibility.Without | tools/grid/split_resources.py:69 | One ignore-entry comprehension keeps exactly the hosts whose name does not contain the entry. `IgnoreStep` ties it to the reference filter. |
| Eligibility.IgnoreEntries | tools/grid/split_resources.py:65 | The ignore entries are exactly the non-empty lines of the file. |
| Eligibility.Eligible | tools/grid/split_resources.py:57-71 | A host is kept iff it serves an allowed queue (or the allowed set is empty) and its name contains no ignore entry. |
| Eligibility.RemoveInvalidQueues | tools/grid/split_resources.py:57-71 | The queue comprehension followed by one comprehension per ignore entry equals the reference filter. |
| Eligibility.QueueStep | tools/grid/split_resources.py:59-61 | With no ignore entries, the filter keeps every host when the allowed set is empty. Otherwise it is the queue comprehension. |
| Eligibility.IgnoreStep | tools/grid/split_resources.py:68-69 | Dropping the names that contain one more entry is the filter with that entry added. |
| Eligibility.EligibleSubsequence | tools/grid/split_resources.py:61-69 | The kept hosts are a subsequence of the input, in input order. |
| Eligibility.EligibleCounts | tools/grid/split_resources.py:61-69 | An admissible host is kept as often as it occurs. Any other host is dropped. |
| Eligibility.EligibleIdempotent | tools/grid/split_resources.py:57-71 | Filtering the kept hosts again changes nothing. |
| Allocation.WithGpu | tools/grid/split_resources.py:92 | The GPU comprehension keeps every host with non-zero `cuda`, and only those, without adding any. |
| Allocation.GpuCounts | tools/grid/split_resources.py:92 | A host with non-zero `cuda` is kept as often as it occurs. Every other host is dropped. |
| Allocation.WithGpuSubsequence | tools/grid/split_resources.py:92 | The kept hosts are a subsequence of the input, in input order. |
| Allocation.Prefix | tools/grid/split_resources.py:95 | `hc[:workers]` is a prefix whose length follows Python's slice rule, negative bounds included. |
| Allocation.AllocateBy | tools/grid/split_resources.py:75-95 | The reference split for a parameter-server ranking. What it returns is stated by `FailsExactlyWhenShort`, `ParameterServers`, `Workers`, `RolesDisjoint` and `NoNameInBothRoles`. |
| Allocation.Allocate | tools/grid/split_resources.py:74-95 | The reference split with the ranking as written. `SplitHosts` is proved equal to it. |
| Allocation.FourPasses | tools/grid/split_resources.py:83-86 | The four stable sorts equal one sort: memory descending, cpu text descending, cuda_cores ascending, cuda ascending. |
| Allocation.RankForPs | tools/grid/split_resources.py:83-86 | The four in-place sorts of the copy leave it ranked by `PsRanking`. |
| Allocation.PopFront | tools/grid/split_resources.py:89 | The `pop(0)` comprehension takes the first `max(ps, 0)` hosts in order and leaves the rest. It fails exactly when `ps` exceeds the list length. |
| Allocation.SplitHosts | tools/grid/split_resources.py:74-95 | The method returns the reference split. It fails exactly when the hosts are fewer than `workers + ps`, or a pop finds the list empty. A shortfall reports both numbers. |
| Allocation.FailsExactlyWhenShort | tools/grid/split_resources.py:76-79 | For non-negative counts, the split fails iff `len(hosts) < workers + ps`, with the shortfall error. |
| Allocation.ParameterServers | tools/grid/split_resources.py:83-89 | There are exactly `max(ps, 0)` parameter servers. They are the first hosts of the ranking, in ranking order, and no pool host outranks them. Together with the pool they are the input. |
| Allocation.Workers | tools/grid/split_resources.py:92-95 | Every worker has a GPU, and workers come in non-increasing cuda_cores order. Their number is `workers` capped by the GPU hosts left, by Python's slice rule. They come from those GPU hosts, and no GPU host left out has more cores. |
| Allocation.BestOf | tools/grid/split_resources.py:93-95 | The first `k` of a stable sort are sorted and come from the list. No host left out ranks before a chosen one. |
| Allocation.SortedSplit | tools/grid/split_resources.py:89 | Cutting the ranked list after the parameter servers loses nothing. Both parts stay sorted, and the front outranks the back. |
| Allocation.RolesDisjoint | tools/grid/split_resources.py:75-95 | Parameter servers and workers together are a sub-multiset of the input: no host position serves twice. |
| Allocation.NoNameInBothRoles | tools/grid/split_resources.py:89-95 | With unique host names, no name is both a parameter server and a worker. |
| Allocation.IntendedPrefersMoreCpus | tools/grid/split_resources.py:81-85 | Under the corrected ranking, of two hosts with equal memory the one with more CPUs ranks first. |
| Allocation.AllocateIntended | tools/grid/split_resources.py:85 | The corrected split of the line-85 finding: the same split, with the CPU count compared as a number. `IntendedPrefersMoreCpus` and `IntendedSplit` state what changes. |
| Allocation.CatalogCpuTexts | tools/grid/split_resources.py:85 | As text, "16" sorts below "4". So as written, the 16-CPU host does not outrank the 4-CPU host. |
| Allocation.CpuTextMisranks | tools/grid/split_resources.py:83-95 | As written, the two-host catalog gives the 4-CPU GPU host as parameter server and no worker. |
| Allocation.IntendedSplit | tools/grid/split_resources.py:83-95 | With the corrected ranking, the same catalog gives the 16-CPU host as parameter server and the GPU host as worker. |
| ClusterSpecs.PortTexts | tools/grid/split_resources.py:9-10 | The worker and parameter-server ports print as "5001" and "5002". |
| ClusterSpecs.Endpoint | tools/grid/split_resources.py:101-103 | The f-string `host:port`. `EndpointParse` shows that it keeps the host name and the port recoverable. |
| ClusterSpecs.EndpointParse | tools/grid/split_resources.py:98-104 | Splitting `host:port` at its last ':' gives back the host name and the port. |
| ClusterSpecs.PrepareOutput | tools/grid/split_resources.py:98-104 | The worker and ps lists have the lengths of their inputs. Entry i is the i-th host's name followed by ":5001" (workers) or ":5002" (ps). |
| ClusterSpecs.Items | tools/grid/split_resources.py:112 | `cluster_spec.items()` gives the worker entry before the ps entry, the order `prepare_output` inserted them in. `DumpClusterSpec` states the resulting line order. |
| ClusterSpecs.Row | tools/grid/split_resources.py:114 | One CSV line. `RowRoundTrip` shows that it reads back as its endpoint and role. |
| ClusterSpecs.Rows | tools/grid/split_resources.py:113-114 | One CSV line per endpoint, in list order. |
| ClusterSpecs.WriteEntryRows | tools/grid/split_resources.py:113-114 | The inner loop appends exactly one role's lines to what was written. |
| ClusterSpecs.WriteRows | tools/grid/split_resources.py:112-114 | The outer loop writes the lines of every dict entry, in insertion order. |
| ClusterSpecs.RemoveKey | tools/grid/split_resources.py:117-120 | `del` removes exactly the entries with that key. |
| ClusterSpecs.JsonMap | tools/grid/split_resources.py:116-120 | The JSON map holds exactly the dict entries whose list is non-empty. |
| ClusterSpecs.DumpClusterSpec | tools/grid/split_resources.py:111-120 | The CSV is all worker lines, then all ps lines. The JSON map is the dict with its empty roles deleted. |
| ClusterSpecs.JsonKeys | tools/grid/split_resources.py:117-120 | The JSON map has a key for a role iff that role has an endpoint, and its list is unchanged. |
| ClusterSpecs.CsvMatchesJson | tools/grid/split_resources.py:111-120 | The CSV lists exactly the endpoints of the JSON map, in the same order. |
| ClusterSpecs.ParseRow | tools/grid/split_resources.py:114 | A line that reads back holds one endpoint. |
| ClusterSpecs.RowRoundTrip | tools/grid/split_resources.py:114 | A CSV line reads back as its endpoint and role when neither contains ','. |
| Pipeline.Publish | tools/grid/split_resources.py:98-120 | The written lines are one per chosen host, workers first, each with its port and role. The JSON map is exactly the dict with its empty roles deleted: a `worker` entry iff there are workers, then a `ps` entry iff there are parameter servers, and no other key. |
| Pipeline.SplitResources | tools/grid/split_resources.py:126-144 | A run filters, splits and publishes. It ends with the split's error when the split fails. Otherwise it writes the lines and the JSON map that `Publish` states for the chosen hosts. |

## Left out

- `parse_info_table` calls `qhost` through a shell and parses its output, so the model takes the host records as input.
- `convert_memory` does floating-point arithmetic, so `memory` is an integer sort key given with each record. The `memory-human` field is not modelled because nothing in the core reads it.
- `GRID_QUEUES` is an environment variable. The model takes the set it is split into, with the empty set meaning unset or empty.
- The `.ignore_hosts` file is a parameter holding its lines. A missing file is the empty list.
- `JOB_ID`, the `grid_logs` path and the `.csv` and `.json` file writes are left out, because they are I/O and `json.dump` formats text.
  - The CSV is the list of lines in the order they are written.
  - The JSON map is a list of role entries in dict order.
- The stderr messages, `exit(1)`, `argparse` and `print(main())` are left out. A shortfall is the error `NotEnoughHosts` instead of a process exit.
- `list.sort` is Timsort in CPython. The model sorts by insertion. `SortUnique` shows that all stable sorts agree, so the result is the same.
- Updates in place are modelled on values.
  - `hosts.copy()`, the in-place sorts and `pop(0)` work on a `seq` the methods reassign, so the caller's list cannot change.
  - The `del` statements reassign the entry list.
  - Aliasing of the host dicts between the two roles is not modelled.
- Allocation.Workers: the order of tied workers is not restated for the slice. `StableSort.SortClass` states it for the whole sorted GPU list, of which the workers are a prefix.
- tools/data_preprocessor.py is not part of this model: it is image file I/O over scipy, numpy and h5py.
- src/tfhelper.py is not part of this model: it is wrappers over TensorFlow.

## Findings

| source | as written | input that shows it | evidently intended | confidence | as-written member | corrected member |
|---|---|---|---|---|---|---|
| tools/grid/split_resources.py:85 | The cpu sort compares the NCPU column as text (it stays a string from line 41), so "4" ranks above "16" | hosts B (memory 64, cpu "4", 2 GPUs) and D (memory 64, cpu "16", no GPU), one worker and one ps: B becomes the parameter server and no worker is found | on equal memory, the host with more CPUs wins (the comment at lines 81-82): D as parameter server, B as worker | medium, not executed | Allocation.CpuTextMisranks | Allocation.IntendedSplit |

`Allocation.AllocateIntended` is the corrected split. It is `AllocateBy` with the ranking `IntendedPsRanking`, which compares the parsed CPU count (`Text.ParseCount`).

`SplitHosts` and `Pipeline` keep the ranking as written, so that they match the tool. The lemmas about the split (`ParameterServers`, `Workers`, `RolesDisjoint`, `NoNameInBothRoles`, `FailsExactlyWhenShort`) are stated for any ranking, so they hold for the corrected split as well.
