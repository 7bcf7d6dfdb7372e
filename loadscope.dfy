/**
  The `LoadScopeScheduling` scheduler of `src/xdist/scheduler/loadscope.py`:
  the live worker nodes and the work assigned to each, the collection of test
  ids each node reported, the final collection, and the calls the scheduler
  makes on nodes (`send_runtest_some`, `shutdown`), kept in a ghost event log.
 */
module LoadScope {
  import opened Wrappers
  import opened Seqs
  import opened OrderedMaps

  /** A worker node handle: the scheduler only stores and compares handles. */
  type Node(==)

  /** A pytest test id such as `tests/test_m.py::test_case`. */
  type TestId = string

  /**
    A value stored in a node's workload. The source has two shapes for it:
    the writers (`_assign_work_unit`, `mark_test_complete`) store a completion
    flag per test id (`Flag`), while the readers (`_pending_of`, the crash-item
    search of `remove_node`) expect a work unit, a scope's test ids each with its
    completion flag (`Unit`).
   */
  datatype Entry = Flag(done: bool) | Unit(tests: seq<(TestId, bool)>)

  /** A node's workload: an ordered dictionary from test id (or scope) to entry. */
  type Workload = OrderedMap<TestId, Entry>

  /** The calls the scheduler makes on a node. */
  datatype Event = RunTestSome(node: Node, indices: seq<nat>) | Shutdown(node: Node)

  /** Python truthiness of a workload value: a flag is itself, a work unit is true when not empty. */
  predicate Truthy(e: Entry) {
    match e
    case Flag(b) => b
    case Unit(tests) => |tests| > 0
  }

  /** Every value is in the nested shape that `_pending_of` can read. */
  ghost predicate AllUnits(vs: seq<Entry>) {
    forall i | 0 <= i < |vs| :: vs[i].Unit?
  }

  /** Every test of a work unit is completed. */
  ghost predicate Done(tests: seq<(TestId, bool)>) {
    forall j | 0 <= j < |tests| :: tests[j].1
  }

  /** The ordered map of workloads is well formed, and so is every workload in it. */
  ghost predicate ValidWork(aw: OrderedMap<Node, Workload>) {
    aw.Valid() && forall n | n in aw.items :: aw.items[n].Valid()
  }

  // ---------------------------------------------------------------------------
  // _pending_of and the crash-item search of remove_node

  /** `list(scope.values()).count(False)`. */
  function CountFalse(tests: seq<(TestId, bool)>): nat {
    if tests == [] then 0
    else CountFalse(tests[..|tests| - 1]) + (if tests[|tests| - 1].1 then 0 else 1)
  }

  /** The inner loop of the crash search: the first test of a unit that is not completed. */
  function FirstFalse(tests: seq<(TestId, bool)>): Option<TestId> {
    if tests == [] then None
    else
      var last := tests[|tests| - 1];
      match FirstFalse(tests[..|tests| - 1])
      case Some(id) => Some(id)
      case None => if last.1 then None else Some(last.0)
  }

  /** `_pending_of`: the number of tests not completed, over all work units. */
  function PendingOf(units: seq<Entry>): nat
    requires AllUnits(units)
  {
    if units == [] then 0
    else PendingOf(units[..|units| - 1]) + CountFalse(units[|units| - 1].tests)
  }

  /** The crash item: the first test not completed, by unit order, then by test order. */
  function FirstPending(units: seq<Entry>): Option<TestId>
    requires AllUnits(units)
  {
    if units == [] then None
    else
      match FirstPending(units[..|units| - 1])
      case Some(id) => Some(id)
      case None => FirstFalse(units[|units| - 1].tests)
  }

  /** A unit has no pending test exactly when every test is completed. */
  lemma {:induction false} CountFalseZero(tests: seq<(TestId, bool)>)
    ensures CountFalse(tests) == 0 <==> Done(tests)
  {
    if tests != [] {
      var init := tests[..|tests| - 1];
      CountFalseZero(init);
      assert Done(tests) <==> Done(init) && tests[|tests| - 1].1 by {
        assert forall j | 0 <= j < |init| :: init[j] == tests[j];
      }
    }
  }

  /**
    `FirstFalse` finds nothing exactly when every test is completed, and
    otherwise finds a test that is not completed and comes after completed ones only.
   */
  lemma {:induction false} FirstFalseSpec(tests: seq<(TestId, bool)>)
    ensures FirstFalse(tests).None? <==> Done(tests)
    ensures FirstFalse(tests).Some? ==>
      exists j | 0 <= j < |tests| :: tests[j] == (FirstFalse(tests).value, false) && Done(tests[..j])
  {
    if tests != [] {
      var n := |tests|;
      var init := tests[..n - 1];
      FirstFalseSpec(init);
      assert forall j | 0 <= j < |init| :: init[j] == tests[j];
      assert Done(tests) <==> Done(init) && tests[n - 1].1;
      if FirstFalse(init).Some? {
        var j :| 0 <= j < |init| && init[j] == (FirstFalse(init).value, false) && Done(init[..j]);
        assert init[..j] == tests[..j];
      } else {
        assert init == tests[..n - 1];
      }
    }
  }

  /** Once the search has found a test in a prefix, the rest of the unit does not change the answer. */
  lemma {:induction false} FirstFalseStable(tests: seq<(TestId, bool)>, j: nat)
    requires j <= |tests|
    requires FirstFalse(tests[..j]).Some?
    ensures FirstFalse(tests) == FirstFalse(tests[..j])
  {
    if j < |tests| {
      var init := tests[..|tests| - 1];
      assert init[..j] == tests[..j];
      FirstFalseStable(init, j);
    } else {
      assert tests[..j] == tests;
    }
  }

  /** A workload has no pending test exactly when every unit is done. */
  lemma {:induction false} PendingOfZero(units: seq<Entry>)
    requires AllUnits(units)
    ensures PendingOf(units) == 0 <==> forall i | 0 <= i < |units| :: Done(units[i].tests)
  {
    if units != [] {
      var init := units[..|units| - 1];
      PendingOfZero(init);
      CountFalseZero(units[|units| - 1].tests);
      assert forall i | 0 <= i < |init| :: init[i] == units[i];
    }
  }

  /**
    The crash item of a workload: none exactly when every unit is done, and
    otherwise a test that is not completed, with every earlier unit done and
    every earlier test of its own unit completed.
   */
  lemma {:induction false} FirstPendingSpec(units: seq<Entry>)
    requires AllUnits(units)
    ensures FirstPending(units).None? <==> forall i | 0 <= i < |units| :: Done(units[i].tests)
    ensures FirstPending(units).Some? ==>
      exists i, j | 0 <= i < |units| && 0 <= j < |units[i].tests| ::
        && units[i].tests[j] == (FirstPending(units).value, false)
        && (forall i' | 0 <= i' < i :: Done(units[i'].tests))
        && Done(units[i].tests[..j])
  {
    if units != [] {
      var n := |units|;
      var init := units[..n - 1];
      FirstPendingSpec(init);
      FirstFalseSpec(units[n - 1].tests);
      assert forall i | 0 <= i < |init| :: init[i] == units[i];
      if FirstPending(init).Some? {
        var i, j :| 0 <= i < |init| && 0 <= j < |init[i].tests|
          && init[i].tests[j] == (FirstPending(init).value, false)
          && (forall i' | 0 <= i' < i :: Done(init[i'].tests))
          && Done(init[i].tests[..j]);
        assert units[i].tests[j] == (FirstPending(units).value, false);
      } else if FirstFalse(units[n - 1].tests).Some? {
        var j :| 0 <= j < |units[n - 1].tests|
          && units[n - 1].tests[j] == (FirstFalse(units[n - 1].tests).value, false)
          && Done(units[n - 1].tests[..j]);
        assert units[n - 1].tests[j] == (FirstPending(units).value, false);
      }
    }
  }

  /** A workload with pending tests always has a crash item: the `RuntimeError` cannot be raised. */
  lemma PendingHasCrashItem(units: seq<Entry>)
    requires AllUnits(units)
    ensures PendingOf(units) > 0 <==> FirstPending(units).Some?
  {
    PendingOfZero(units);
    FirstPendingSpec(units);
  }

  /** Once the search has found a test in a prefix of the units, later units do not change the answer. */
  lemma {:induction false} FirstPendingStable(units: seq<Entry>, i: nat)
    requires AllUnits(units)
    requires i <= |units|
    requires FirstPending(units[..i]).Some?
    ensures FirstPending(units) == FirstPending(units[..i])
  {
    if i < |units| {
      var init := units[..|units| - 1];
      assert init[..i] == units[..i];
      FirstPendingStable(init, i);
    } else {
      assert units[..i] == units;
    }
  }

  // ---------------------------------------------------------------------------
  // tests_finished and has_pending

  /** `all([x for x in workload.values()])`. */
  predicate WorkloadFinished(w: Workload)
    requires w.Valid()
  {
    var vs := w.Values();
    forall i | 0 <= i < |vs| :: Truthy(vs[i])
  }

  /** The loop of `tests_finished` over the nodes `ks`, returning at the first unfinished one. */
  function AllFinished(aw: OrderedMap<Node, Workload>, ks: seq<Node>): (r: bool)
    requires forall i | 0 <= i < |ks| :: ks[i] in aw.items && aw.items[ks[i]].Valid()
    ensures r <==> forall i | 0 <= i < |ks| :: WorkloadFinished(aw.items[ks[i]])
  {
    if ks == [] then true
    else if !WorkloadFinished(aw.items[ks[0]]) then false
    else AllFinished(aw, ks[1..])
  }

  /** `tests_finished`: false before collection is complete, else every value of every workload is truthy. */
  function AllWorkFinished(aw: OrderedMap<Node, Workload>, collectionCompleted: bool): (r: bool)
    requires ValidWork(aw)
    ensures r <==> collectionCompleted && forall n | n in aw.items :: WorkloadFinished(aw.items[n])
  {
    if !collectionCompleted then false
    else AllFinished(aw, aw.keys)
  }

  /** The loop of `has_pending` over the nodes `ks`, returning at the first one with pending tests. */
  function AnyPending(aw: OrderedMap<Node, Workload>, ks: seq<Node>): (r: bool)
    requires forall i | 0 <= i < |ks| ::
      ks[i] in aw.items && aw.items[ks[i]].Valid() && AllUnits(aw.items[ks[i]].Values())
    ensures r <==> exists i | 0 <= i < |ks| :: PendingOf(aw.items[ks[i]].Values()) > 0
  {
    if ks == [] then false
    else if PendingOf(aw.items[ks[0]].Values()) > 0 then true
    else AnyPending(aw, ks[1..])
  }

  /** `has_pending`: some live node has a pending test in its workload. */
  function AnyWorkPending(aw: OrderedMap<Node, Workload>): (r: bool)
    requires ValidWork(aw)
    requires forall n | n in aw.items :: AllUnits(aw.items[n].Values())
    ensures r <==> exists n | n in aw.items :: PendingOf(aw.items[n].Values()) > 0
  {
    AnyPending(aw, aw.keys)
  }

  // ---------------------------------------------------------------------------
  // _assign_work_unit and schedule, as functions of the state

  /** Python's `s[i]` for `-len(s) <= i < len(s)`: a negative index counts from the end. */
  function PyIndex<T>(s: seq<T>, i: int): (x: T)
    requires -|s| <= i < |s|
    ensures x == s[i % |s|]
  {
    if i < 0 then s[|s| + i] else s[i]
  }

  /** `range(n)` as a list: every index below `n`, each once, in increasing order. */
  function Indices(n: nat): (r: seq<nat>)
    ensures forall x: int :: x in r <==> 0 <= x < n
    ensures forall a, b | 0 <= a < b < |r| :: r[a] < r[b]
  {
    var r := seq(n, i requires 0 <= i < n => i);
    assert forall i | 0 <= i < |r| :: r[i] == i < n;
    forall x: nat | x < n ensures x in r {
      assert r[x] == x;
    }
    r
  }

  /** The workload after `assigned_to_node[nodeid] = False` for each test id of `ids`, in order. */
  function MarkPending(w: Workload, ids: seq<TestId>): (r: Workload)
    ensures w.Valid() ==> r.Valid()
  {
    if ids == [] then w
    else MarkPending(w, ids[..|ids| - 1]).Put(ids[|ids| - 1], Flag(false))
  }

  /** The workload a node has, or a fresh one (`setdefault(node, OrderedDict())`). */
  function WorkloadOf(aw: OrderedMap<Node, Workload>, node: Node): Workload {
    if node in aw.items then aw.items[node] else Empty()
  }

  /** The workloads after `_assign_work_unit(node)` with collection `c`. */
  function AssignUnit(aw: OrderedMap<Node, Workload>, node: Node, c: seq<TestId>): (r: OrderedMap<Node, Workload>)
    ensures ValidWork(aw) ==> ValidWork(r)
  {
    if c == [] then aw else aw.Put(node, MarkPending(WorkloadOf(aw, node), c))
  }

  /** The workloads after `_assign_work_unit` on each of the first `k` nodes of `ns`, in order. */
  function AssignAll(aw: OrderedMap<Node, Workload>, ns: seq<Node>, k: nat, reg: map<Node, seq<TestId>>): (r: OrderedMap<Node, Workload>)
    requires k <= |ns|
    requires forall i | 0 <= i < |ns| :: ns[i] in reg
    ensures ValidWork(aw) ==> ValidWork(r)
  {
    if k == 0 then aw
    else AssignUnit(AssignAll(aw, ns, k - 1, reg), ns[k - 1], reg[ns[k - 1]])
  }

  /** The `send_runtest_some` calls of `_assign_work_unit` on each of the first `k` nodes of `ns`, in order. */
  function SendAll(ns: seq<Node>, k: nat, reg: map<Node, seq<TestId>>): seq<Event>
    requires k <= |ns|
    requires forall i | 0 <= i < |ns| :: ns[i] in reg
  {
    if k == 0 then []
    else SendAll(ns, k - 1, reg) + [RunTestSome(ns[k - 1], Indices(|reg[ns[k - 1]]|))]
  }

  /** The `shutdown` calls of `schedule`: each node of `ks` whose collection is empty, in order. */
  function ShutdownAll(ks: seq<Node>, reg: map<Node, seq<TestId>>): seq<Event>
    requires forall i | 0 <= i < |ks| :: ks[i] in reg
  {
    if ks == [] then []
    else
      var last := ks[|ks| - 1];
      ShutdownAll(ks[..|ks| - 1], reg) + (if |reg[last]| == 0 then [Shutdown(last)] else [])
  }

  // ---------------------------------------------------------------------------
  // Properties of assignment

  /** One key after `MarkPending`: a test id of the collection maps to `False`; any other key is as it was. */
  lemma {:induction false} MarkPendingAt(w: Workload, ids: seq<TestId>, k: TestId)
    ensures k in ids ==> k in MarkPending(w, ids).items && MarkPending(w, ids).items[k] == Flag(false)
    ensures k !in ids ==> (k in MarkPending(w, ids).items <==> k in w.items)
    ensures k !in ids && k in w.items ==> MarkPending(w, ids).items[k] == w.items[k]
  {
    if ids != [] {
      var init := ids[..|ids| - 1];
      MarkPendingAt(w, init, k);
      assert k in ids <==> k in init || k == ids[|ids| - 1];
    }
  }

  /** `MarkPending` keeps the old keys first, in their order. */
  lemma {:induction false} MarkPendingPrefix(w: Workload, ids: seq<TestId>)
    ensures |w.keys| <= |MarkPending(w, ids).keys| && MarkPending(w, ids).keys[..|w.keys|] == w.keys
  {
    if ids != [] {
      MarkPendingPrefix(w, ids[..|ids| - 1]);
    }
  }

  /**
    `_assign_work_unit` maps every test id of the collection to `False`, keeps
    every other key and its value, and keeps the old keys first, in their order.
   */
  lemma MarkPendingSpec(w: Workload, ids: seq<TestId>)
    ensures forall k | k in ids :: k in MarkPending(w, ids).items && MarkPending(w, ids).items[k] == Flag(false)
    ensures forall k | k !in ids :: (k in MarkPending(w, ids).items <==> k in w.items)
    ensures forall k | k !in ids && k in w.items :: MarkPending(w, ids).items[k] == w.items[k]
    ensures |w.keys| <= |MarkPending(w, ids).keys| && MarkPending(w, ids).keys[..|w.keys|] == w.keys
  {
    forall k {
      MarkPendingAt(w, ids, k);
    }
    MarkPendingPrefix(w, ids);
  }

  /**
    The shape clash of the source: once a node has been given a non-empty
    collection, its workload holds flags, so `_pending_of` (and with it
    `has_pending` and `remove_node`) cannot read it.
   */
  lemma AssignedWorkloadIsFlat(w: Workload, ids: seq<TestId>)
    requires w.Valid() && ids != []
    ensures !AllUnits(MarkPending(w, ids).Values())
    ensures !WorkloadFinished(MarkPending(w, ids))
  {
    MarkPendingSpec(w, ids);
    var r := MarkPending(w, ids);
    var k := ids[0];
    assert k in r.items && k in r.keys;
    var i :| 0 <= i < |r.keys| && r.keys[i] == k;
    assert r.Values()[i] == Flag(false);
  }

  /** One turn of the loop of `_assign_work_unit`: `setdefault`, then mark the next test id pending. */
  lemma AssignUnitStep(aw: OrderedMap<Node, Workload>, node: Node, c: seq<TestId>, k: nat)
    requires k < |c|
    ensures var cur := AssignUnit(aw, node, c[..k]);
      var mid := if node in cur.items then cur else cur.Put(node, Empty());
      AssignUnit(aw, node, c[..k + 1]) == mid.Put(node, mid.items[node].Put(c[k], Flag(false)))
  {
    var w0 := WorkloadOf(aw, node);
    var before := MarkPending(w0, c[..k]);
    var after := MarkPending(w0, c[..k + 1]);
    assert c[..k + 1][..k] == c[..k] && c[..k + 1][k] == c[k];
    assert after == before.Put(c[k], Flag(false));
    assert AssignUnit(aw, node, c[..k + 1]) == aw.Put(node, after);
    if k == 0 {
      assert c[..k] == [] && before == w0;
      if node !in aw.items {
        PutPut(aw, node, Empty(), after);
      }
    } else {
      assert AssignUnit(aw, node, c[..k]) == aw.Put(node, before);
      PutPut(aw, node, before, after);
    }
  }

  /** The initial assignment over live nodes leaves the order of the nodes as it was. */
  lemma {:induction false} AssignAllKeys(aw: OrderedMap<Node, Workload>, ns: seq<Node>, k: nat, reg: map<Node, seq<TestId>>)
    requires k <= |ns|
    requires forall i | 0 <= i < |ns| :: ns[i] in reg && ns[i] in aw.items
    ensures AssignAll(aw, ns, k, reg).keys == aw.keys
    ensures AssignAll(aw, ns, k, reg).items.Keys == aw.items.Keys
  {
    if k > 0 {
      var prev := AssignAll(aw, ns, k - 1, reg);
      AssignAllKeys(aw, ns, k - 1, reg);
      AssignUnitKeys(prev, ns[k - 1], reg[ns[k - 1]]);
    }
  }

  /** `_assign_work_unit` on a live node adds no node and moves none. */
  lemma AssignUnitKeys(aw: OrderedMap<Node, Workload>, node: Node, c: seq<TestId>)
    requires node in aw.items
    ensures AssignUnit(aw, node, c).keys == aw.keys
    ensures AssignUnit(aw, node, c).items.Keys == aw.items.Keys
  {
  }

  /** The initial assignment over the first `k` nodes leaves any other node as it was. */
  lemma {:induction false} AssignAllOther(aw: OrderedMap<Node, Workload>, ns: seq<Node>, k: nat, reg: map<Node, seq<TestId>>, n: Node)
    requires k <= |ns|
    requires forall i | 0 <= i < |ns| :: ns[i] in reg
    requires n in aw.items && forall i | 0 <= i < k :: ns[i] != n
    ensures n in AssignAll(aw, ns, k, reg).items && AssignAll(aw, ns, k, reg).items[n] == aw.items[n]
  {
    if k > 0 {
      var prev := AssignAll(aw, ns, k - 1, reg);
      AssignAllOther(aw, ns, k - 1, reg, n);
      assert ns[k - 1] != n;
      assert AssignAll(aw, ns, k, reg) == AssignUnit(prev, ns[k - 1], reg[ns[k - 1]]);
    }
  }

  /** The initial assignment gives the `j`-th node, listed once, its own collection marked pending. */
  lemma {:induction false} AssignAllOwn(aw: OrderedMap<Node, Workload>, ns: seq<Node>, k: nat, reg: map<Node, seq<TestId>>, j: nat)
    requires Distinct(ns) && j < k <= |ns|
    requires forall i | 0 <= i < |ns| :: ns[i] in reg
    requires ns[j] in aw.items
    ensures ns[j] in AssignAll(aw, ns, k, reg).items
    ensures AssignAll(aw, ns, k, reg).items[ns[j]] ==
      if reg[ns[j]] != [] then MarkPending(aw.items[ns[j]], reg[ns[j]]) else aw.items[ns[j]]
  {
    var prev := AssignAll(aw, ns, k - 1, reg);
    var n := ns[j];
    assert AssignAll(aw, ns, k, reg) == AssignUnit(prev, ns[k - 1], reg[ns[k - 1]]);
    if j == k - 1 {
      assert forall i | 0 <= i < k - 1 :: ns[i] != n;
      AssignAllOther(aw, ns, k - 1, reg, n);
      assert WorkloadOf(prev, n) == aw.items[n];
    } else {
      assert ns[k - 1] != n;
      AssignAllOwn(aw, ns, k - 1, reg, j);
    }
  }

  /**
    After the initial assignment a live node of `ns` holds its own collection
    marked pending (one with an empty collection is left as it was); any other
    node keeps its workload.
   */
  lemma AssignAllAt(aw: OrderedMap<Node, Workload>, ns: seq<Node>, reg: map<Node, seq<TestId>>, n: Node)
    requires Distinct(ns)
    requires forall i | 0 <= i < |ns| :: ns[i] in reg && ns[i] in aw.items
    requires n in aw.items
    ensures n in AssignAll(aw, ns, |ns|, reg).items
    ensures AssignAll(aw, ns, |ns|, reg).items[n] ==
      if n in ns && reg[n] != [] then MarkPending(aw.items[n], reg[n]) else aw.items[n]
  {
    if n in ns {
      var j :| 0 <= j < |ns| && ns[j] == n;
      AssignAllOwn(aw, ns, |ns|, reg, j);
    } else {
      AssignAllOther(aw, ns, |ns|, reg, n);
    }
  }

  /** `_assign_work_unit` sends each of the first `k` nodes, in order, the whole index range of its own collection. */
  lemma {:induction false} SendAllSpec(ns: seq<Node>, k: nat, reg: map<Node, seq<TestId>>)
    requires k <= |ns|
    requires forall i | 0 <= i < |ns| :: ns[i] in reg
    ensures |SendAll(ns, k, reg)| == k
    ensures forall i | 0 <= i < k :: SendAll(ns, k, reg)[i] == RunTestSome(ns[i], Indices(|reg[ns[i]]|))
  {
    if k > 0 {
      SendAllSpec(ns, k - 1, reg);
    }
  }

  /** `schedule` shuts down exactly the registered nodes whose collection is empty, and nothing else. */
  lemma {:induction false} ShutdownAllSpec(ks: seq<Node>, reg: map<Node, seq<TestId>>)
    requires forall i | 0 <= i < |ks| :: ks[i] in reg
    ensures forall e | e in ShutdownAll(ks, reg) :: e.Shutdown? && e.node in ks
    ensures forall n | n in ks :: (Shutdown(n) in ShutdownAll(ks, reg) <==> reg[n] == [])
  {
    if ks != [] {
      var init := ks[..|ks| - 1];
      ShutdownAllSpec(init, reg);
      assert forall n | n in ks :: n in init || n == ks[|ks| - 1];
      assert forall n | n in init :: n in ks;
    }
  }

  /**
    Right after the initial assignment, a live node with a non-empty
    collection has each of its test ids pending, so `tests_finished` is false.
   */
  lemma InitialAssignment(aw: OrderedMap<Node, Workload>, reg: map<Node, seq<TestId>>, n: Node)
    requires ValidWork(aw)
    requires forall m | m in aw.items :: m in reg
    requires n in aw.items && reg[n] != []
    ensures n in AssignAll(aw, aw.keys, |aw.keys|, reg).items
    ensures forall id | id in reg[n] ::
      && id in AssignAll(aw, aw.keys, |aw.keys|, reg).items[n].items
      && AssignAll(aw, aw.keys, |aw.keys|, reg).items[n].items[id] == Flag(false)
    ensures !AllWorkFinished(AssignAll(aw, aw.keys, |aw.keys|, reg), true)
  {
    AssignAllAt(aw, aw.keys, reg, n);
    MarkPendingSpec(aw.items[n], reg[n]);
    AssignedWorkloadIsFlat(aw.items[n], reg[n]);
  }

  /** The search of `remove_node` for the crash item: scopes in order, tests in order, stop at the first pending. */
  method FindCrashItem(units: seq<Entry>) returns (crashItem: Option<TestId>)
    requires AllUnits(units)
    ensures crashItem == FirstPending(units)
  {
    crashItem := None;
    var i := 0;
    while i < |units| && crashItem.None?
      invariant 0 <= i <= |units|
      invariant crashItem == FirstPending(units[..i])
    {
      var tests := units[i].tests;
      var found: Option<TestId> := None;
      var j := 0;
      while j < |tests| && found.None?
        invariant 0 <= j <= |tests|
        invariant found == FirstFalse(tests[..j])
      {
        assert tests[..j + 1][..j] == tests[..j];
        if !tests[j].1 {
          found := Some(tests[j].0);
        }
        j := j + 1;
      }
      if found.Some? {
        FirstFalseStable(tests, j);
      } else {
        assert tests[..j] == tests;
      }
      assert units[..i + 1][..i] == units[..i];
      crashItem := found;
      i := i + 1;
    }
    if crashItem.Some? {
      FirstPendingStable(units, i);
    } else {
      assert units[..i] == units;
    }
  }

  // ---------------------------------------------------------------------------
  // The scheduler

  class LoadScopeScheduling {
    /** The number of nodes expected to report a collection. */
    const numnodes: nat
    /** The final collection: `None` until `schedule` first runs. */
    var collection: Option<seq<TestId>>
    /** Live node -> its workload, in the order the nodes were added. */
    var assignedWork: OrderedMap<Node, Workload>
    /** Node -> the test ids it collected, in the order the collections arrived. */
    var registeredCollections: OrderedMap<Node, seq<TestId>>
    /** The calls made on nodes, oldest first. */
    ghost var events: seq<Event>

    ghost predicate Valid()
      reads this
    {
      ValidWork(assignedWork) && registeredCollections.Valid()
    }

    /** `__init__`, with the number of configured nodes passed in. */
    constructor (numnodes: nat)
      ensures Valid()
      ensures this.numnodes == numnodes && collection == None
      ensures assignedWork == Empty() && registeredCollections == Empty() && events == []
    {
      this.numnodes := numnodes;
      collection := None;
      assignedWork := Empty();
      registeredCollections := Empty();
      events := [];
    }

    /** `nodes`: the live nodes, in the order they were added, each once. */
    function Nodes(): (ns: seq<Node>)
      reads this
      requires Valid()
      ensures Distinct(ns)
      ensures forall i | 0 <= i < |ns| :: ns[i] in assignedWork.items
      ensures forall n | n in assignedWork.items :: n in ns
    {
      assignedWork.keys
    }

    /** `collection_is_completed`: at least `numnodes` nodes have reported a collection. */
    predicate CollectionIsCompleted()
      reads this
    {
      |registeredCollections.keys| >= numnodes
    }

    /** `tests_finished`. */
    function TestsFinished(): (r: bool)
      reads this
      requires Valid()
      ensures r <==> (CollectionIsCompleted() &&
        forall n | n in assignedWork.items :: WorkloadFinished(assignedWork.items[n]))
    {
      AllWorkFinished(assignedWork, CollectionIsCompleted())
    }

    /** `has_pending`; it can only read workloads in the nested shape. */
    function HasPending(): (r: bool)
      reads this
      requires Valid()
      requires forall n | n in assignedWork.items :: AllUnits(assignedWork.items[n].Values())
      ensures r <==> exists n | n in assignedWork.items :: PendingOf(assignedWork.items[n].Values()) > 0
    {
      AnyWorkPending(assignedWork)
    }

    /** `add_node`: a new node goes last, with an empty workload. */
    method AddNode(node: Node)
      requires Valid()
      requires node !in assignedWork.items
      modifies this
      ensures Valid()
      ensures Nodes() == old(Nodes()) + [node]
      ensures assignedWork.items == old(assignedWork.items)[node := Empty()]
      ensures registeredCollections == old(registeredCollections)
      ensures collection == old(collection) && events == old(events)
    {
      assignedWork := assignedWork.Put(node, Empty());
    }

    /** `_reschedule`: an empty stub in the source, so it changes nothing. */
    method Reschedule(node: Node)
      ensures unchanged(this)
    {
    }

    /**
      `remove_node`: drop the node; if its workload had pending tests, return
      the first one (the crash item), else `None`.
     */
    method RemoveNode(node: Node) returns (crashItem: Option<TestId>)
      requires Valid()
      requires node in assignedWork.items
      requires AllUnits(assignedWork.items[node].Values())
      modifies this
      ensures Valid()
      ensures assignedWork == old(assignedWork).Pop(node)
      ensures node !in Nodes() && |Nodes()| + 1 == |old(Nodes())|
      ensures crashItem == FirstPending(old(assignedWork).items[node].Values())
      ensures crashItem.None? <==> PendingOf(old(assignedWork).items[node].Values()) == 0
      ensures registeredCollections == old(registeredCollections)
      ensures old(CollectionIsCompleted()) ==> CollectionIsCompleted()
      ensures collection == old(collection) && events == old(events)
    {
      var workload := assignedWork.items[node];
      assignedWork := assignedWork.Pop(node);
      var units := workload.Values();
      PendingHasCrashItem(units);
      if PendingOf(units) == 0 {
        return None;
      }

      // The node crashed: identify the test that crashed
      crashItem := FindCrashItem(units);
      if crashItem.None? {
        // `raise RuntimeError(...)`: unreachable, the workload has a pending test
        assert false;
      }

      var remaining := assignedWork.keys;
      for k := 0 to |remaining|
        modifies {}
      {
        Reschedule(remaining[k]);
      }
    }

    /**
      `add_node_collection`: record the node's collection. A late node (collection
      already complete) is only accepted once `schedule` has set a non-empty
      final collection.
     */
    method AddNodeCollection(node: Node, tests: seq<TestId>)
      requires Valid()
      requires node in assignedWork.items
      requires CollectionIsCompleted() ==> collection.Some? && collection.value != []
      modifies this
      ensures Valid()
      ensures registeredCollections == old(registeredCollections).Put(node, tests)
      ensures registeredCollections.items[node] == tests
      ensures forall n | n in old(registeredCollections.items) && n != node ::
        registeredCollections.items[n] == old(registeredCollections.items[n])
      ensures old(CollectionIsCompleted()) ==> CollectionIsCompleted()
      ensures assignedWork == old(assignedWork) && collection == old(collection) && events == old(events)
    {
      if CollectionIsCompleted() {
        registeredCollections := registeredCollections.Put(node, tests);
      }
      registeredCollections := registeredCollections.Put(node, tests);
    }

    /**
      `mark_test_complete`: the test at `itemIndex` of the node's collection is
      marked completed in that node's workload, and nothing else changes.
     */
    method MarkTestComplete(node: Node, itemIndex: int)
      requires Valid()
      requires node in registeredCollections.items && node in assignedWork.items
      requires -|registeredCollections.items[node]| <= itemIndex < |registeredCollections.items[node]|
      modifies this
      ensures Valid()
      ensures registeredCollections == old(registeredCollections)
      ensures collection == old(collection) && events == old(events)
      ensures assignedWork == old(assignedWork).Put(node,
        old(assignedWork).items[node].Put(PyIndex(registeredCollections.items[node], itemIndex), Flag(true)))
      ensures Nodes() == old(Nodes())
      ensures forall n | n in assignedWork.items && n != node :: assignedWork.items[n] == old(assignedWork).items[n]
    {
      var nodeid := PyIndex(registeredCollections.items[node], itemIndex);
      assignedWork := assignedWork.Put(node, assignedWork.items[node].Put(nodeid, Flag(true)));
      Reschedule(node);
    }

    /**
      `_assign_work_unit`: mark every test id of the node's collection pending
      in its workload, then send the node the whole index range.
     */
    method AssignWorkUnit(node: Node)
      requires node in registeredCollections.items
      modifies this`assignedWork, this`events
      ensures assignedWork == AssignUnit(old(assignedWork), node, registeredCollections.items[node])
      ensures events == old(events) + [RunTestSome(node, Indices(|registeredCollections.items[node]|))]
    {
      var nodeidsIndexes := Indices(|registeredCollections.items[node]|);
      ghost var c := registeredCollections.items[node];
      var aw := assignedWork;
      for k := 0 to |nodeidsIndexes|
        modifies {}
        invariant aw == AssignUnit(assignedWork, node, c[..k])
      {
        var nodeid := registeredCollections.items[node][nodeidsIndexes[k]];
        AssignUnitStep(assignedWork, node, c, k);
        if node !in aw.items {
          aw := aw.Put(node, Empty());
        }
        var assignedToNode := aw.items[node];
        aw := aw.Put(node, assignedToNode.Put(nodeid, Flag(false)));
      }
      assert c[..|c|] == c;
      assignedWork := aw;
      events := events + [RunTestSome(node, nodeidsIndexes)];
    }

    /**
      `schedule`: on the first call adopt the first registered collection; if
      it is non-empty, shut down every node that collected nothing and give
      every live node its whole collection. Later calls change nothing.
     */
    method Schedule()
      requires Valid()
      requires CollectionIsCompleted()
      requires collection.None? ==> registeredCollections.keys != []
      requires (collection.None? && registeredCollections.keys != []
        && registeredCollections.items[registeredCollections.keys[0]] != []) ==>
        forall n | n in assignedWork.items :: n in registeredCollections.items
      modifies this
      ensures Valid()
      ensures registeredCollections == old(registeredCollections)
      ensures old(collection).Some? ==>
        collection == old(collection) && assignedWork == old(assignedWork) && events == old(events)
      ensures old(collection).None? ==>
        collection == Some(registeredCollections.items[registeredCollections.keys[0]])
      ensures old(collection).None? && collection == Some([]) ==>
        assignedWork == old(assignedWork) && events == old(events)
      ensures old(collection).None? && collection != Some([]) ==>
        && assignedWork == AssignAll(old(assignedWork), old(assignedWork).keys, |old(assignedWork).keys|, registeredCollections.items)
        && events == old(events)
             + ShutdownAll(registeredCollections.keys, registeredCollections.items)
             + SendAll(old(assignedWork).keys, |old(assignedWork).keys|, registeredCollections.items)
    {
      if collection.Some? {
        // A later call only reschedules each live node
        var ns := Nodes();
        for k := 0 to |ns|
          modifies {}
        {
          Reschedule(ns[k]);
        }
        return;
      }

      collection := Some(registeredCollections.items[registeredCollections.keys[0]]);
      if collection.value == [] {
        return;
      }

      // Nodes that collected nothing are shut down
      ShutdownUnusedNodes();
      // Every live node receives its work unit
      AssignInitialWork();
    }

    /** The first loop of `schedule`: `shutdown` every node whose registered collection is empty. */
    method ShutdownUnusedNodes()
      requires Valid()
      modifies this`events
      ensures events == old(events) + ShutdownAll(registeredCollections.keys, registeredCollections.items)
    {
      var registered := registeredCollections.keys;
      for k := 0 to |registered|
        invariant events == old(events) + ShutdownAll(registered[..k], registeredCollections.items)
      {
        assert registered[..k + 1][..k] == registered[..k];
        if |registeredCollections.items[registered[k]]| == 0 {
          events := events + [Shutdown(registered[k])];
        }
      }
      assert registered[..|registered|] == registered;
    }

    /** The second loop of `schedule`: `_assign_work_unit` on every live node, in order. */
    method AssignInitialWork()
      requires forall i | 0 <= i < |assignedWork.keys| :: assignedWork.keys[i] in registeredCollections.items
      modifies this`assignedWork, this`events
      ensures assignedWork == AssignAll(old(assignedWork), old(assignedWork).keys, |old(assignedWork).keys|, registeredCollections.items)
      ensures events == old(events) + SendAll(old(assignedWork).keys, |old(assignedWork).keys|, registeredCollections.items)
    {
      ghost var reg := registeredCollections.items;
      ghost var aw0 := assignedWork;
      ghost var ev0 := events;
      var ns := assignedWork.keys;  // `self.nodes`
      for k := 0 to |ns|
        invariant assignedWork == AssignAll(aw0, ns, k, reg)
        invariant events == ev0 + SendAll(ns, k, reg)
      {
        AssignNextNode(aw0, ev0, ns, k);
      }
    }

    /** One turn of the second loop of `schedule`: `_assign_work_unit` on the `k`-th live node. */
    method AssignNextNode(ghost aw0: OrderedMap<Node, Workload>, ghost ev0: seq<Event>, ns: seq<Node>, k: nat)
      requires k < |ns|
      requires forall i | 0 <= i < |ns| :: ns[i] in registeredCollections.items
      requires assignedWork == AssignAll(aw0, ns, k, registeredCollections.items)
      requires events == ev0 + SendAll(ns, k, registeredCollections.items)
      modifies this`assignedWork, this`events
      ensures assignedWork == AssignAll(aw0, ns, k + 1, registeredCollections.items)
      ensures events == ev0 + SendAll(ns, k + 1, registeredCollections.items)
    {
      ghost var sent := SendAll(ns, k, registeredCollections.items);
      assert (ev0 + sent) + [RunTestSome(ns[k], Indices(|registeredCollections.items[ns[k]]|))]
        == ev0 + (sent + [RunTestSome(ns[k], Indices(|registeredCollections.items[ns[k]]|))]);
      AssignWorkUnit(ns[k]);
    }
  }

  // ---------------------------------------------------------------------------
  // Worked examples

  /** A node whose workload is `{"m.py": {"m.py::t1": True, "m.py::t2": False}}` crashed on `m.py::t2`. */
  lemma ExampleCrashItem()
    ensures FirstPending([Unit([("m.py::t1", true), ("m.py::t2", false)])]) == Some("m.py::t2")
  {
    var tests := [("m.py::t1", true), ("m.py::t2", false)];
    assert tests[..1][..0] == [];
    assert FirstFalse(tests[..1]) == None;
    assert [Unit(tests)][..0] == [];
  }

  /** Two nodes that both collected `["t1", "t2"]` are each sent indices `[0, 1]` by the initial schedule. */
  lemma ExampleInitialSends(x: Node, y: Node)
    requires x != y
    ensures SendAll([x, y], 2, map[x := ["t1", "t2"], y := ["t1", "t2"]])
      == [RunTestSome(x, [0, 1]), RunTestSome(y, [0, 1])]
  {
    var reg := map[x := ["t1", "t2"], y := ["t1", "t2"]];
    assert reg[x] == ["t1", "t2"] && reg[y] == ["t1", "t2"];
    assert Indices(2) == [0, 1];
    assert SendAll([x, y], 1, reg) == [RunTestSome(x, Indices(2))];
  }
}
