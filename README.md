# pytest-xdist bucket planner and load-scope scheduler, in Dafny

This project models two sequential parts of a pytest-xdist fork and proves
properties of them.

- **The bucket planner** (`src/xdist/bucketing.py`). It takes a plan of test
  files split into bins and the test files found on disk. It drops every path
  that contains one of five substrings anywhere: `.pyc`, `__pycache__`,
  `__init__.py`, `conftest.py` or `tests/incremental`. Then it
  finds the tests that no bin holds and appends each one to the first bin of
  least size.
- **The `LoadScopeScheduling` state machine** (`src/xdist/scheduler/loadscope.py`).
  It tracks the live worker nodes and the workload of each one. It records the
  test ids each node collected and the final collection. It also records the
  calls it makes on nodes (`send_runtest_some`, `shutdown`). The scheduler is a
  class. Its methods change its fields in place. The read-only queries are
  functions over those fields.

Files:

- `wrappers.dfy`: `Option`.
- `seqs.dfy`: `Distinct`, a sequence without repeats, and its multiset form.
- `ordered_map.dfy`: Python's insertion-ordered dictionaries, written as a key
  list plus a map. `Put` is `d[k] = v`. A new key goes last and an existing key
  keeps its place. `Pop` is `d.pop(k)`. The order matters for `nodes`, for
  "the first registered collection" and for the crash-item search.
- `bucketing.dfy`: the planner. `FindNewTests` and `BinNewTests` are methods
  with the source's loops. Each is proved equal to a specification function
  (`Unbinned`, `Distribute`). The lemmas state what those functions mean.
- `loadscope.dfy`: the scheduler. Node handles are an opaque type. The calls
  on nodes go into a ghost event log, `events`.

The workload has two shapes in the source. The writers store a flat
`test id -> bool` (`_assign_work_unit`, `mark_test_complete`). The readers
expect `scope -> {test id -> bool}` (`_pending_of`, the crash search in
`remove_node`). The model keeps both shapes with `Entry = Flag(bool) | Unit(...)`.
The readers require every entry to be a `Unit`. `AssignedWorkloadIsFlat` proves
that this precondition fails once a node has been given work. So the source's
`has_pending` and `remove_node` would raise `AttributeError` on such a node.

Some promises of the source's own docstrings do not hold in its code, and the
code has two further behaviours worth stating. The model follows the code:

- The class docstring (`src/xdist/scheduler/loadscope.py:12-13`) promises that
  each test is run just once. The code gives every live node its whole
  collection, so with two nodes every test is sent twice (`AssignAllAt`,
  `ExampleInitialSends`).
- The class docstring (`src/xdist/scheduler/loadscope.py:17-19`) and the
  docstring of `remove_node` (`src/xdist/scheduler/loadscope.py:160-162`)
  promise that work is rescheduled when a node's pending tests fall below a
  low watermark or the node crashes. `_reschedule` is an empty stub, so
  nothing is rescheduled, and the model's `Reschedule` changes nothing.
- In the first `schedule`, a node whose collection is empty gets `shutdown` and
  then still `send_runtest_some([])` (`ShutdownAllSpec`, `SendAllSpec`).
- The greedy placement of new tests keeps the difference between the largest
  and the smallest bin at most max(d, 1), where d is that difference before
  the placement (`PlaceBalance`, `DistributeBalance`).

## Model

| member | source | states |
|---|---|---|
| `OrderedMaps.OrderedMap.Put` | src/xdist/scheduler/loadscope.py:155 | dict assignment: a new key is appended last, an existing key keeps its place, and a well-formed map stays well formed |
| `OrderedMaps.OrderedMap.Pop` | src/xdist/scheduler/loadscope.py:172 | `pop` of a present key removes exactly that key; the other keys keep their relative order; one key fewer |
| `OrderedMaps.PutPut` | src/xdist/scheduler/loadscope.py:209-214 | writing the same key twice equals writing it once with the second value, which is why the duplicated assignment in `add_node_collection` is harmless |
| `Bucketing.Contains` | src/xdist/bucketing.py:44-53 | Python's `sub in s`: `sub` occurs at some position of `s`; its meaning for the filter is stated by `KeepTests` and `KeepTestsCount` |
| `Bucketing.Excluded` | src/xdist/bucketing.py:44-53 | the `any(...)` test: some of the five substrings occurs in the path; `KeepTestsCount` shows the filter drops exactly these paths |
| `Bucketing.KeepTests` | src/xdist/bucketing.py:41-54 | no path in the result contains any of the five sentinels; the result is no longer than the input |
| `Bucketing.KeepTestsCount` | src/xdist/bucketing.py:41-54 | the filter keeps every occurrence of a path without a sentinel, duplicates included, and drops every path with one |
| `Bucketing.KeepTestsConcat` | src/xdist/bucketing.py:41-54 | the filter distributes over concatenation, so the kept paths keep their input order |
| `Bucketing.KeepTestsNoRepeats` | src/xdist/bucketing.py:41-54 | a list of paths without repeats stays without repeats after the filter |
| `Bucketing.KeepTestsOfClean` | src/xdist/bucketing.py:56-69 | a list without sentinel paths passes the filter unchanged |
| `Bucketing.KeepTestsIdempotent` | src/xdist/bucketing.py:56-69 | the second comprehension of `discover_all_tests` is idempotent on the first one's output |
| `Bucketing.DiscoverAllTests` | src/xdist/bucketing.py:35-69 | the doubled filter over the globbed paths equals a single filter pass |
| `Bucketing.Flatten` | src/xdist/bucketing.py:77-79 | a test is in the concatenated bins iff some bin holds it |
| `Bucketing.Binned` | src/xdist/bucketing.py:77-79 | `bined_tests` holds a test iff some bin holds it |
| `Bucketing.Unbinned` | src/xdist/bucketing.py:81-85 | no kept test is binned; the result is no longer than `all_tests` |
| `Bucketing.UnbinnedCount` | src/xdist/bucketing.py:81-85 | each unbinned test keeps its multiplicity in `all_tests`; binned tests occur zero times |
| `Bucketing.UnbinnedConcat` | src/xdist/bucketing.py:81-85 | the new tests keep their relative order from `all_tests` |
| `Bucketing.FindNewTests` | src/xdist/bucketing.py:72-85 | the loop builds exactly the set of binned tests; the result is the order-preserving list difference, with each test's count from `all_tests` or zero if binned |
| `Bucketing.SmallestBin` | src/xdist/bucketing.py:95-102 | the inner loop's choice is a bin of least size, and every earlier bin is strictly larger, so ties go to the lowest index |
| `Bucketing.LargestSize` | src/xdist/bucketing.py:98-99 | the size of the largest bin: an upper bound on every bin size that some bin reaches |
| `Bucketing.Place` | src/xdist/bucketing.py:94-104 | one placement keeps the number of bins; `PlaceBalance` and `FlattenAppend` state what it does to sizes and contents |
| `Bucketing.Distribute` | src/xdist/bucketing.py:93-105 | placing the new tests keeps the number of bins |
| `Bucketing.Targets` | src/xdist/bucketing.py:94-104 | each new test gets exactly one target bin, and that bin exists |
| `Bucketing.BinNewTests` | src/xdist/bucketing.py:88-105 | the nested loop with `current_min_index`/`current_min_count` (both -1 at the start) computes `Distribute`; it requires a bin whenever there is a new test, because `bins[-1]` raises otherwise |
| `Bucketing.TargetsAreSmallest` | src/xdist/bucketing.py:94-104 | the k-th new test goes to the first smallest bin of the plan as it stands after the first k placements |
| `Bucketing.DistributeByBin` | src/xdist/bucketing.py:93-104 | every result bin is its input bin followed by the new tests targeted to it, in `new_tests` order; so each input bin is a prefix of its result bin |
| `Bucketing.FlattenAppend` | src/xdist/bucketing.py:104 | appending one test to one bin adds exactly that test to the plan's multiset |
| `Bucketing.DistributeAddsEachOnce` | src/xdist/bucketing.py:94-104 | the plan's multiset grows by exactly the new tests, and its size grows by `len(new_tests)` |
| `Bucketing.PlaceBalance` | src/xdist/bucketing.py:98-104 | after one placement, largest minus smallest bin size is at most max(previous difference, 1) |
| `Bucketing.DistributeBalance` | src/xdist/bucketing.py:94-104 | after all placements the difference is still at most max(initial difference, 1) |
| `Bucketing.PlanCoverage` | src/xdist/bucketing.py:108-115 | the final plan holds exactly the binned tests together with all discovered tests |
| `Bucketing.PlanCoverageAt` | src/xdist/bucketing.py:108-115 | one test is in the final plan iff it was binned or discovered |
| `Bucketing.PlanNoRepeats` | src/xdist/bucketing.py:108-115 | if the loaded bins repeat no test and the discovered list repeats none, the final plan repeats none |
| `Bucketing.GetBinsAndNewTests` | src/xdist/bucketing.py:108-115 | the composite returns the new tests and the placed bins; its bins cover the binned tests plus the filtered globbed paths, with no repeats when the inputs have none |
| `Bucketing.ExampleNewTests` | src/xdist/bucketing.py:72-85 | with `[["a","b"],["c"]]` binned, `["a","b","c","d"]` has exactly one new test, `"d"` |
| `Bucketing.ExamplePlan` | src/xdist/bucketing.py:88-105 | placing `"d"` into `[["a","b"],["c"]]` gives `[["a","b"],["c","d"]]`: the smaller bin gets it |
| `LoadScope.PendingOf` | src/xdist/scheduler/loadscope.py:272-275 | `_pending_of`; `PendingOfZero` proves it is 0 iff every unit is done, and `PendingHasCrashItem` that it is positive iff a crash item exists |
| `LoadScope.FirstFalse` | src/xdist/scheduler/loadscope.py:178-181 | the inner crash search; its meaning is proved in `FirstFalseSpec` and `FirstFalseStable` |
| `LoadScope.FirstPending` | src/xdist/scheduler/loadscope.py:177-184 | the crash item; its meaning is proved in `FirstPendingSpec` and `FirstPendingStable`, and `FindCrashItem` computes it |
| `LoadScope.CountFalseZero` | src/xdist/scheduler/loadscope.py:274 | a unit counts no `False` iff every one of its tests is completed |
| `LoadScope.FirstFalseSpec` | src/xdist/scheduler/loadscope.py:178-181 | the inner search finds nothing iff the unit is done; otherwise it finds a pending test after completed ones only |
| `LoadScope.FirstFalseStable` | src/xdist/scheduler/loadscope.py:178-181 | once a pending test is found in a prefix, the rest of the unit does not change the answer (`break`) |
| `LoadScope.PendingOfZero` | src/xdist/scheduler/loadscope.py:272-275 | `_pending_of` is 0 iff every unit of the workload is done |
| `LoadScope.FirstPendingSpec` | src/xdist/scheduler/loadscope.py:177-184 | the crash item is absent iff every unit is done; otherwise it is a pending test whose earlier units are done and whose earlier tests in its own unit are completed |
| `LoadScope.PendingHasCrashItem` | src/xdist/scheduler/loadscope.py:173-188 | pending count > 0 iff a crash item exists, so the `RuntimeError` branch is unreachable |
| `LoadScope.FirstPendingStable` | src/xdist/scheduler/loadscope.py:177-184 | once a unit yields the crash item, later units do not change it (outer `break`) |
| `LoadScope.FindCrashItem` | src/xdist/scheduler/loadscope.py:176-184 | the nested `for`/`break`/`else` search returns the first pending test, by scope order then test order, or `None` |
| `LoadScope.WorkloadFinished` | src/xdist/scheduler/loadscope.py:126 | `all(assigned_unit.values())` for one workload; `AllFinished` and `TestsFinished` are stated in terms of it |
| `LoadScope.AllFinished` | src/xdist/scheduler/loadscope.py:126-128 | the early-return loop over nodes is true iff every listed node's workload values are all truthy |
| `LoadScope.AllWorkFinished` | src/xdist/scheduler/loadscope.py:116-130 | `tests_finished` is true iff collection is complete and every value of every live workload is truthy (vacuously with no nodes) |
| `LoadScope.AnyPending` | src/xdist/scheduler/loadscope.py:140-144 | the early-return loop is true iff some listed node's workload has pending tests |
| `LoadScope.AnyWorkPending` | src/xdist/scheduler/loadscope.py:132-144 | `has_pending` is true iff some live workload has `_pending_of` > 0 |
| `LoadScope.PyIndex` | src/xdist/scheduler/loadscope.py:223 | Python list indexing on `-len(s) <= i < len(s)` is indexing modulo the length: `s[i % len(s)]` |
| `LoadScope.Indices` | src/xdist/scheduler/loadscope.py:236 | `list(range(n))` holds exactly the numbers 0..n-1, in strictly increasing order, so each once |
| `LoadScope.WorkloadOf` | src/xdist/scheduler/loadscope.py:241-243 | `setdefault(node, OrderedDict())`: the node's workload, or a fresh one; `MarkPendingSpec` and `AssignAllAt` state the result |
| `LoadScope.MarkPending` | src/xdist/scheduler/loadscope.py:238-244 | marking test ids pending keeps a well-formed workload well formed |
| `LoadScope.AssignUnit` | src/xdist/scheduler/loadscope.py:231-246 | `_assign_work_unit` keeps well-formed workloads well formed |
| `LoadScope.AssignAll` | src/xdist/scheduler/loadscope.py:319-321 | the initial assignment over the first k live nodes keeps well-formed workloads well formed |
| `LoadScope.MarkPendingAt` | src/xdist/scheduler/loadscope.py:236-244 | for one key: a test id of the collection maps to `False`; any other key keeps its presence and its value |
| `LoadScope.MarkPendingPrefix` | src/xdist/scheduler/loadscope.py:236-244 | the old keys of the workload stay first, in their order |
| `LoadScope.MarkPendingSpec` | src/xdist/scheduler/loadscope.py:236-244 | every id of the collection maps to `False`; every other key keeps its presence and value; the old keys stay first, in order |
| `LoadScope.AssignedWorkloadIsFlat` | src/xdist/scheduler/loadscope.py:244 | once a node gets a non-empty collection, its workload holds flat flags, which `_pending_of` cannot read, and `tests_finished` is false for it |
| `LoadScope.AssignUnitStep` | src/xdist/scheduler/loadscope.py:238-244 | one loop turn, a `setdefault` and then `assigned_to_node[nodeid] = False`, extends the assignment by one test id |
| `LoadScope.AssignUnitKeys` | src/xdist/scheduler/loadscope.py:238-244 | `_assign_work_unit` on a live node adds no node and moves none |
| `LoadScope.AssignAllKeys` | src/xdist/scheduler/loadscope.py:319-321 | assigning work to live nodes never adds or reorders nodes, so `nodes` is the same after the initial schedule |
| `LoadScope.AssignAllOther` | src/xdist/scheduler/loadscope.py:319-321 | a node outside the first k nodes keeps its workload |
| `LoadScope.AssignAllOwn` | src/xdist/scheduler/loadscope.py:319-321 | the j-th node, listed once, ends with its own collection marked pending, or unchanged if that collection is empty |
| `LoadScope.AssignAllAt` | src/xdist/scheduler/loadscope.py:319-321 | after the initial assignment each live node holds its own whole collection marked pending (unchanged if that collection is empty) |
| `LoadScope.SendAll` | src/xdist/scheduler/loadscope.py:320-321 | the `send_runtest_some` calls of the second loop of `schedule`; `SendAllSpec` states them per node |
| `LoadScope.SendAllSpec` | src/xdist/scheduler/loadscope.py:319-321 | the initial schedule sends each of the first k live nodes, in node order, exactly the indices 0..len-1 of its own collection |
| `LoadScope.ShutdownAll` | src/xdist/scheduler/loadscope.py:314-317 | the `shutdown` calls of the first loop of `schedule`; `ShutdownAllSpec` states which nodes get one |
| `LoadScope.ShutdownAllSpec` | src/xdist/scheduler/loadscope.py:313-317 | `schedule` shuts down exactly the registered nodes whose collection is empty, and no other node |
| `LoadScope.InitialAssignment` | src/xdist/scheduler/loadscope.py:116-130 | right after the initial assignment, a node with tests has each of them pending, so `tests_finished` is false |
| `LoadScope.LoadScopeScheduling.constructor` | src/xdist/scheduler/loadscope.py:87-92 | starts with no collection, no nodes, no registered collections and an empty event log |
| `LoadScope.LoadScopeScheduling.Nodes` | src/xdist/scheduler/loadscope.py:101-104 | `nodes` lists the live nodes, each once, in the order they were added |
| `LoadScope.LoadScopeScheduling.CollectionIsCompleted` | src/xdist/scheduler/loadscope.py:106-114 | `collection_is_completed`: at least `numnodes` nodes have registered a collection; the ensures of `RemoveNode` and `AddNodeCollection` prove it never goes back to false |
| `LoadScope.LoadScopeScheduling.TestsFinished` | src/xdist/scheduler/loadscope.py:116-130 | false while collection is incomplete; otherwise true iff every value of every live workload is truthy |
| `LoadScope.LoadScopeScheduling.HasPending` | src/xdist/scheduler/loadscope.py:132-144 | true iff some live workload has pending tests; requires the nested shape that `_pending_of` reads |
| `LoadScope.LoadScopeScheduling.AddNode` | src/xdist/scheduler/loadscope.py:146-155 | requires an absent node; the node becomes the last of `nodes` with an empty workload; all else unchanged |
| `LoadScope.LoadScopeScheduling.Reschedule` | src/xdist/scheduler/loadscope.py:277-282 | the stub changes nothing |
| `LoadScope.LoadScopeScheduling.RemoveNode` | src/xdist/scheduler/loadscope.py:157-193 | the node leaves `nodes`; the result is `None` iff its pending count was 0, else the first pending test; registered collections are kept, so completion never goes back to false |
| `LoadScope.LoadScopeScheduling.AddNodeCollection` | src/xdist/scheduler/loadscope.py:195-214 | requires the node to be live, and a non-empty final collection once collection is complete; records the list for that node only; completion never goes back to false |
| `LoadScope.LoadScopeScheduling.MarkTestComplete` | src/xdist/scheduler/loadscope.py:216-226 | sets the test at the (Python) index of the node's collection to `True` in that node's workload only; nothing else changes |
| `LoadScope.LoadScopeScheduling.AssignWorkUnit` | src/xdist/scheduler/loadscope.py:231-246 | the node's workload becomes its collection marked pending (created by `setdefault` only if the collection is non-empty); one `send_runtest_some` of the whole index range is logged |
| `LoadScope.LoadScopeScheduling.Schedule` | src/xdist/scheduler/loadscope.py:284-321 | requires complete collection; a later call changes nothing; a first call adopts the first registered collection; if it is non-empty, it shuts down the empty-collection nodes and then assigns every live node, in order |
| `LoadScope.LoadScopeScheduling.ShutdownUnusedNodes` | src/xdist/scheduler/loadscope.py:313-317 | logs a `shutdown` for each registered node with an empty collection, in registration order |
| `LoadScope.LoadScopeScheduling.AssignInitialWork` | src/xdist/scheduler/loadscope.py:319-321 | runs `_assign_work_unit` on every live node in `nodes` order; requires each to have a registered collection |
| `LoadScope.LoadScopeScheduling.AssignNextNode` | src/xdist/scheduler/loadscope.py:320-321 | one turn of that loop extends the assignment and the `send_runtest_some` log by the k-th node |
| `LoadScope.ExampleCrashItem` | src/xdist/scheduler/loadscope.py:172-193 | the workload `{"m.py": {"m.py::t1": True, "m.py::t2": False}}` has crash item `m.py::t2` |
| `LoadScope.ExampleInitialSends` | src/xdist/scheduler/loadscope.py:319-321 | two nodes that both collected `["t1","t2"]` are each sent indices `[0, 1]` |

## Left out

- `load_bins` is left out. It opens a file, parses JSON and reads `TEST_DIR` or the working directory. The loaded bins are a parameter of `GetBinsAndNewTests`.
- The `glob.glob` call of `discover_all_tests` is filesystem access. Its result is a parameter.
- `_check_nodes_have_same_collection` is left out. Its only call is commented out. It also depends on `report_collection_diff`, `CollectReport` and the pytest hook, which are not part of this model.
- Logging (`Producer`, `self.log`), `config` and `parse_spec_config` are left out. `numnodes` is a constructor parameter.
- `send_runtest_some` and `shutdown` are recorded as events only. The transport behind them is not modelled.
- `mark_test_pending` always raises `NotImplementedError`, so it is not modelled.
- `_split_scope` returns its argument unchanged and is never called, so it is not modelled. The `::` splitting its docstring describes is not implemented in the source.
- There is no work queue and no low watermark, because `_reschedule` is an empty stub.
- Concurrency is left out. The host delivers events one at a time.
- `BinNewTests` does not model aliasing. Bins are values, so "the input is never mutated" holds by construction. The source gets the same effect by copying each bin.
- `LoadScope.LoadScopeScheduling.HasPending`, `RemoveNode` and `FindCrashItem` require every workload entry to be a work unit. On a flat flag the source raises `AttributeError`, and the model does not reproduce that crash.
- `LoadScope.LoadScopeScheduling.Schedule` requires a registered collection on a first call, because the source raises `StopIteration` otherwise. It also requires every live node to have a registered collection when the first collection is non-empty, because `_assign_work_unit` raises `KeyError` otherwise.
