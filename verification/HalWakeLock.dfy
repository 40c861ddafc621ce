/** Wake locks (`HalWakeLock.cpp`): per-topic, per-process lock counts, their totals, and what listeners
    are told. */
module HalWakeLock {

  type Topic = string
  type Process = nat

  const PROCESS_UNKNOWN: Process := 0xFFFF_FFFF_FFFF_FFFF
  const UINT32 := 0x1_0000_0000

  datatype LockCount = LockCount(numLocks: nat, numHidden: nat, processes: seq<Process>)

  const NO_LOCKS := LockCount(0, 0, [])

  type ProcessLockTable = map<Process, LockCount>
  type LockTable = map<Topic, ProcessLockTable>

  datatype WakeLockState = Unlocked | Hidden | Visible

  datatype WakeLockInformation =
    WakeLockInformation(topic: Topic, numLocks: nat, numHidden: nat, lockingProcesses: seq<Process>)

  function ComputeWakeLockState(numLocks: nat, numHidden: nat): (r: WakeLockState)
    ensures r.Unlocked? <==> numLocks == 0
    ensures r.Hidden? <==> 0 < numLocks == numHidden
    ensures r.Visible? <==> numLocks > 0 && numHidden != numLocks
  {
    if numLocks == 0 then Unlocked else if numLocks == numHidden then Hidden else Visible
  }

  // Totals

  ghost function Pick(table: ProcessLockTable): (p: Process)
    requires table != map[]
    ensures p in table
  {
    var p :| p in table; p
  }

  /** The recount: all locks of all processes. */
  ghost function Locks(table: ProcessLockTable): nat
    decreases |table|
  {
    if table == map[] then 0 else table[Pick(table)].numLocks + Locks(table - {Pick(table)})
  }

  ghost function HiddenLocks(table: ProcessLockTable): nat
    decreases |table|
  {
    if table == map[] then 0 else table[Pick(table)].numHidden + HiddenLocks(table - {Pick(table)})
  }

  /** Recounting may start with any process. */
  lemma {:induction false} CountFrom(table: ProcessLockTable, p: Process)
    requires p in table
    ensures Locks(table) == table[p].numLocks + Locks(table - {p})
    ensures HiddenLocks(table) == table[p].numHidden + HiddenLocks(table - {p})
    decreases |table|
  {
    var q := Pick(table);
    if p != q {
      CountFrom(table - {q}, p);
      CountFrom(table - {p}, q);
      assert table - {q} - {p} == table - {p} - {q};
    }
  }

  ghost function Of(table: ProcessLockTable, p: Process): LockCount {
    if p in table then table[p] else NO_LOCKS
  }

  ghost function TableOf(tables: LockTable, topic: Topic): ProcessLockTable {
    if topic in tables then tables[topic] else map[]
  }

  ghost function CountOf(tables: LockTable, topic: Topic, p: Process): LockCount {
    Of(TableOf(tables, topic), p)
  }

  /** Storing or removing one process shifts the totals by what changed. */
  lemma {:induction false} CountAfterChange(table: ProcessLockTable, p: Process, count: LockCount)
    ensures Locks(table[p := count]) - count.numLocks == Locks(table) - Of(table, p).numLocks == Locks(table - {p})
    ensures HiddenLocks(table[p := count]) - count.numHidden == HiddenLocks(table) - Of(table, p).numHidden ==
            HiddenLocks(table - {p})
  {
    CountFrom(table[p := count], p);
    assert table[p := count] - {p} == table - {p};
    if p in table {
      CountFrom(table, p);
    } else {
      assert table - {p} == table;
    }
  }

  // What holds in every reachable state

  ghost predicate StoredCount(count: LockCount) {
    count.numLocks > 0 && count.processes == []
  }

  ghost predicate Sane(table: ProcessLockTable) {
    forall p :: p in table ==> StoredCount(table[p])
  }

  ghost predicate AllSane(tables: LockTable) {
    forall topic :: topic in tables ==> Sane(tables[topic])
  }

  /** A topic is stored only while something holds it. */
  ghost predicate NothingIdle(tables: LockTable) {
    forall topic :: topic in tables ==> Locks(tables[topic]) > 0
  }

  lemma {:induction false} SaneTotals(table: ProcessLockTable)
    requires Sane(table)
    ensures Locks(table) == 0 <==> table == map[]
    decreases |table|
  {
    if table != map[] {
      SaneTotals(table - {Pick(table)});
    }
  }

  /** The counts determine the table: nothing is stored that does not count. */
  lemma {:induction false} CountsDetermineTables(a: LockTable, b: LockTable)
    requires AllSane(a) && AllSane(b) && NothingIdle(a) && NothingIdle(b)
    requires forall topic, p :: CountOf(a, topic, p) == CountOf(b, topic, p)
    ensures a == b
  {
    forall topic ensures topic in a <==> topic in b
      ensures topic in a && topic in b ==> a[topic] == b[topic]
    {
      SameTable(a, b, topic);
    }
  }

  lemma {:induction false} SameTable(a: LockTable, b: LockTable, topic: Topic)
    requires AllSane(a) && AllSane(b) && NothingIdle(a) && NothingIdle(b)
    requires forall topic, p :: CountOf(a, topic, p) == CountOf(b, topic, p)
    ensures TableOf(a, topic) == TableOf(b, topic) && (topic in a <==> topic in b)
  {
    var s, t := TableOf(a, topic), TableOf(b, topic);
    forall p ensures p in s <==> p in t
      ensures p in s && p in t ==> s[p] == t[p]
    {
      assert CountOf(a, topic, p) == CountOf(b, topic, p);
    }
    assert s == t;
  }

  // What a listener knows

  /** What a notification is about: the lock state of a topic, and who holds it. */
  datatype Known = Known(state: WakeLockState, processes: set<Process>)

  ghost function Current(tables: LockTable, topic: Topic): Known {
    var table := TableOf(tables, topic);
    Known(ComputeWakeLockState(Locks(table), HiddenLocks(table)), table.Keys)
  }

  ghost function Told(info: WakeLockInformation): Known {
    Known(ComputeWakeLockState(info.numLocks, info.numHidden), set p | p in info.lockingProcesses)
  }

  /** What the last notification about a topic said; before the first one, how it was at the start. */
  ghost function LastTold(start: LockTable, log: seq<WakeLockInformation>, topic: Topic): Known {
    if log == [] then Current(start, topic)
    else if log[|log| - 1].topic == topic then Told(log[|log| - 1])
    else LastTold(start, log[..|log| - 1], topic)
  }

  /** A listener that was there from `start` on and heard `log` knows about every topic. */
  ghost predicate UpToDate(start: LockTable, log: seq<WakeLockInformation>, tables: LockTable) {
    forall topic :: LastTold(start, log, topic) == Current(tables, topic)
  }

  lemma {:induction false} LastToldLater(start: LockTable, before: seq<WakeLockInformation>, middle: LockTable,
                                         log: seq<WakeLockInformation>, topic: Topic)
    requires UpToDate(start, before, middle)
    ensures LastTold(start, before + log, topic) == LastTold(middle, log, topic)
  {
    if log == [] {
      assert before + log == before;
    } else {
      assert (before + log)[..|before + log| - 1] == before + log[..|log| - 1];
      LastToldLater(start, before, middle, log[..|log| - 1], topic);
    }
  }

  /** A listener that joined later is up to date exactly when the first one is. */
  lemma {:induction false} LaterListener(start: LockTable, before: seq<WakeLockInformation>, middle: LockTable,
                                         log: seq<WakeLockInformation>, tables: LockTable)
    requires UpToDate(start, before, middle)
    ensures UpToDate(start, before + log, tables) <==> UpToDate(middle, log, tables)
  {
    forall topic ensures LastTold(start, before + log, topic) == LastTold(middle, log, topic) {
      LastToldLater(start, before, middle, log, topic);
    }
  }

  ghost predicate Describes(info: WakeLockInformation, tables: LockTable, topic: Topic) {
    && info.topic == topic
    && info.numLocks == Locks(TableOf(tables, topic)) && info.numHidden == HiddenLocks(TableOf(tables, topic))
    && multiset(info.lockingProcesses) == multiset(TableOf(tables, topic).Keys)
  }

  // One change at a time

  /** The two tables differ at most at one topic. */
  ghost predicate OnlyAt(topic: Topic, before: LockTable, after: LockTable) {
    forall t :: t != topic ==> TableOf(after, t) == TableOf(before, t)
  }

  /** Storing one count, and dropping the topic when nothing is held any more. */
  ghost function AfterChange(tables: LockTable, topic: Topic, p: Process, count: LockCount): LockTable {
    var table := if count.numLocks > 0 then TableOf(tables, topic)[p := count] else TableOf(tables, topic) - {p};
    if Locks(table) == 0 then tables - {topic} else tables[topic := table]
  }

  /** Exactly the count of one process at one topic is replaced. */
  ghost predicate CountChanged(before: LockTable, after: LockTable, topic: Topic, p: Process, count: LockCount) {
    forall t, q :: CountOf(after, t, q) == if t == topic && q == p then count else CountOf(before, t, q)
  }

  lemma {:induction false} TableAfterChange(tables: LockTable, topic: Topic, p: Process, count: LockCount)
    requires AllSane(tables) && (count == NO_LOCKS || StoredCount(count))
    ensures var table := TableOf(AfterChange(tables, topic, p, count), topic);
            && table == (if count.numLocks > 0
                         then TableOf(tables, topic)[p := count] else TableOf(tables, topic) - {p})
            && Sane(table)
            && Locks(table) == Locks(TableOf(tables, topic)) - CountOf(tables, topic, p).numLocks + count.numLocks
            && HiddenLocks(table) ==
               HiddenLocks(TableOf(tables, topic)) - CountOf(tables, topic, p).numHidden + count.numHidden
  {
    var before := TableOf(tables, topic);
    var table := if count.numLocks > 0 then before[p := count] else before - {p};
    CountAfterChange(before, p, count);
    SaneTotals(table);
    hide Locks;
    hide HiddenLocks;
  }

  lemma {:induction false} ChangeIsRight(tables: LockTable, topic: Topic, p: Process, count: LockCount)
    requires AllSane(tables) && NothingIdle(tables) && (count == NO_LOCKS || StoredCount(count))
    ensures var after := AfterChange(tables, topic, p, count);
            AllSane(after) && NothingIdle(after) && OnlyAt(topic, tables, after) &&
            CountChanged(tables, after, topic, p, count)
  {
    TableAfterChange(tables, topic, p, count);
    hide Locks;
    hide HiddenLocks;
  }

  /** What a listener should know changes exactly when the lock state does or a process comes or goes. */
  lemma {:induction false} KnownChanges(tables: LockTable, topic: Topic, p: Process, count: LockCount)
    requires AllSane(tables) && (count == NO_LOCKS || StoredCount(count))
    ensures var after := AfterChange(tables, topic, p, count);
            Current(tables, topic) != Current(after, topic) <==>
            || Current(tables, topic).state !=
               ComputeWakeLockState(Locks(TableOf(after, topic)), HiddenLocks(TableOf(after, topic)))
            || (CountOf(tables, topic, p).numLocks > 0) != (count.numLocks > 0)
  {
    TableAfterChange(tables, topic, p, count);
    hide Locks;
    hide HiddenLocks;
    var before, after := TableOf(tables, topic), TableOf(AfterChange(tables, topic, p, count), topic);
    assert p in before <==> CountOf(tables, topic, p).numLocks > 0;
    assert p in after <==> count.numLocks > 0;
    assert before.Keys - {p} == after.Keys - {p};
    if p in before <==> p in after {
      assert before.Keys == after.Keys;
    }
  }

  lemma {:induction false} OneTold(start: LockTable, log: seq<WakeLockInformation>, before: LockTable,
                                   info: WakeLockInformation, after: LockTable)
    requires UpToDate(start, log, before) && OnlyAt(info.topic, before, after)
    requires Describes(info, after, info.topic)
    ensures UpToDate(start, log + [info], after)
  {
    DescribesTells(info, after);
    forall t ensures LastTold(start, log + [info], t) == Current(after, t) {
      assert (log + [info])[..|log|] == log;
      assert t != info.topic ==> Current(before, t) == Current(after, t);
      assert LastTold(start, log, t) == Current(before, t);
    }
  }

  lemma {:induction false} DescribesTotal(tables: LockTable, topic: Topic, total: LockCount)
    requires total.numLocks == Locks(TableOf(tables, topic)) && total.numHidden == HiddenLocks(TableOf(tables, topic))
    requires multiset(total.processes) == multiset(TableOf(tables, topic).Keys)
    ensures Describes(WakeLockInformation(topic, total.numLocks, total.numHidden, total.processes), tables, topic)
  {
  }

  lemma {:induction false} DescribesTells(info: WakeLockInformation, tables: LockTable)
    requires Describes(info, tables, info.topic)
    ensures Told(info) == Current(tables, info.topic)
  {
    var keys := TableOf(tables, info.topic).Keys;
    forall p ensures p in info.lockingProcesses <==> p in keys {
      assert p in info.lockingProcesses <==> p in multiset(info.lockingProcesses);
      assert p in keys <==> p in multiset(keys);
    }
  }

  lemma {:induction false} NoneTold(start: LockTable, log: seq<WakeLockInformation>, before: LockTable, topic: Topic,
                                    after: LockTable)
    requires UpToDate(start, log, before) && OnlyAt(topic, before, after)
    requires Current(before, topic) == Current(after, topic)
    ensures UpToDate(start, log, after)
  {
    forall t ensures LastTold(start, log, t) == Current(after, t) {
      assert t != topic ==> Current(before, t) == Current(after, t);
      assert LastTold(start, log, t) == Current(before, t);
    }
  }

  function Adjusted(count: LockCount, lockAdjust: int, hiddenAdjust: int): LockCount
    requires count.numLocks + lockAdjust >= 0 && count.numHidden + hiddenAdjust >= 0
  {
    LockCount(count.numLocks + lockAdjust, count.numHidden + hiddenAdjust, count.processes)
  }

  /** What the table keeps of a count: nothing once no lock is held, however many were hidden. */
  function Stored(count: LockCount): LockCount {
    if count.numLocks > 0 then count else NO_LOCKS
  }

  /** What the assertions ask of a caller, all of it about the counts before the change; and no count wraps. */
  ghost predicate Permits(tables: LockTable, topic: Topic, lockAdjust: int, hiddenAdjust: int, p: Process) {
    var count, table := CountOf(tables, topic, p), TableOf(tables, topic);
    && p != PROCESS_UNKNOWN && -1 <= lockAdjust <= 1 && -1 <= hiddenAdjust <= 1
    && count.numLocks >= count.numHidden
    && (lockAdjust >= 0 || count.numLocks > 0)
    && (hiddenAdjust >= 0 || count.numHidden > 0)
    && Locks(table) >= HiddenLocks(table)
    && Locks(table) + 1 < UINT32
  }

  /** A process that holds nothing hides a lock, where one more hidden lock would change the state. */
  ghost predicate Spurious(tables: LockTable, topic: Topic, lockAdjust: int, hiddenAdjust: int, p: Process) {
    var table := TableOf(tables, topic);
    && p !in table && lockAdjust == 0 && hiddenAdjust == 1
    && Locks(table) > 0 && HiddenLocks(table) <= Locks(table) <= HiddenLocks(table) + 1
  }

  /** The test on the adjusted totals is passed exactly when what a listener should know changes, or
      the change is spurious. */
  lemma {:induction false} TestIsRight(tables: LockTable, topic: Topic, lockAdjust: int, hiddenAdjust: int, p: Process)
    requires AllSane(tables) && Permits(tables, topic, lockAdjust, hiddenAdjust, p)
    requires CountOf(tables, topic, p) == NO_LOCKS || StoredCount(CountOf(tables, topic, p))
    ensures var count := Adjusted(CountOf(tables, topic, p), lockAdjust, hiddenAdjust);
            var table, after := TableOf(tables, topic), AfterChange(tables, topic, p, Stored(count));
            HiddenLocks(table) + hiddenAdjust >= 0 && Locks(table) + lockAdjust >= 0 &&
            (Current(tables, topic) != Current(after, topic) ||
             Spurious(tables, topic, lockAdjust, hiddenAdjust, p) <==>
             || Current(tables, topic).state != ComputeWakeLockState(Locks(table) + lockAdjust,
                                                                     HiddenLocks(table) + hiddenAdjust)
             || (CountOf(tables, topic, p).numLocks > 0) != (count.numLocks > 0))
  {
    var count := Adjusted(CountOf(tables, topic, p), lockAdjust, hiddenAdjust);
    Totals(tables, topic, p);
    KnownChanges(tables, topic, p, Stored(count));
    TableAfterChange(tables, topic, p, Stored(count));
    hide Locks;
    hide HiddenLocks;
    hide AfterChange;
    hide AllSane;
  }

  lemma {:induction false} Totals(tables: LockTable, topic: Topic, p: Process)
    requires AllSane(tables)
    ensures CountOf(tables, topic, p).numLocks <= Locks(TableOf(tables, topic))
    ensures CountOf(tables, topic, p).numHidden <= HiddenLocks(TableOf(tables, topic))
    ensures topic !in tables ==> Locks(TableOf(tables, topic)) == 0
    ensures CountOf(tables, topic, p) == NO_LOCKS || StoredCount(CountOf(tables, topic, p))
    ensures Current(tables, topic).state ==
            ComputeWakeLockState(Locks(TableOf(tables, topic)), HiddenLocks(TableOf(tables, topic)))
  {
    SaneTotals(TableOf(tables, topic));
    if p in TableOf(tables, topic) {
      CountFrom(TableOf(tables, topic), p);
    }
  }

  /** All that holds after a permitted change. */
  lemma {:induction false} AdjustIsRight(tables: LockTable, topic: Topic, lockAdjust: int, hiddenAdjust: int,
                                         p: Process)
    requires AllSane(tables) && NothingIdle(tables) && Permits(tables, topic, lockAdjust, hiddenAdjust, p)
    ensures var before := CountOf(tables, topic, p);
            before.numLocks + lockAdjust >= 0 && before.numHidden + hiddenAdjust >= 0 &&
            var count := Adjusted(before, lockAdjust, hiddenAdjust);
            var after := AfterChange(tables, topic, p, Stored(count));
            && AllSane(after) && NothingIdle(after) && OnlyAt(topic, tables, after)
            && CountChanged(tables, after, topic, p, Stored(count))
            && Locks(TableOf(after, topic)) == Locks(TableOf(tables, topic)) + lockAdjust
            && HiddenLocks(TableOf(after, topic)) ==
               HiddenLocks(TableOf(tables, topic)) + hiddenAdjust - (if count.numLocks > 0 then 0 else count.numHidden)
  {
    Totals(tables, topic, p);
    var count := Adjusted(CountOf(tables, topic, p), lockAdjust, hiddenAdjust);
    ChangeIsRight(tables, topic, p, Stored(count));
    TableAfterChange(tables, topic, p, Stored(count));
    hide Locks;
    hide HiddenLocks;
    hide AfterChange;
    hide AllSane;
    hide NothingIdle;
    hide OnlyAt;
    hide CountChanged;
  }

  /** What the two updates of the tables come to. */
  lemma {:induction false} UpdatesAreChange(tables: LockTable, topic: Topic, p: Process, count: LockCount,
                                            table: ProcessLockTable, total: nat)
    requires table == if count.numLocks > 0 then TableOf(tables, topic)[p := count] else TableOf(tables, topic) - {p}
    requires total == Locks(TableOf(AfterChange(tables, topic, p, Stored(count)), topic))
    requires AllSane(tables) && count.processes == []
    ensures AfterChange(tables, topic, p, Stored(count)) ==
            if total == 0 then tables - {topic} else tables[topic := table]
  {
    TableAfterChange(tables, topic, p, Stored(count));
    SaneTotals(table);
  }

  lemma {:induction false} CountsOfTwo(a: LockCount, b: LockCount)
    ensures var table := map[1 := a, 2 := b];
            Locks(table) == a.numLocks + b.numLocks && HiddenLocks(table) == a.numHidden + b.numHidden
  {
    var table: ProcessLockTable := map[1 := a, 2 := b];
    CountFrom(table, 1);
    CountFrom(table - {1}, 2);
    assert table - {1} - {2} == map[];
  }

  /** A process gives up its last lock without the hidden one: the adjusted totals still hide a lock, the recount
      none. */
  lemma {:induction false} HiddenLockLingers()
    ensures var tables := map["t" := map[1 := LockCount(1, 1, []), 2 := LockCount(1, 0, [])]];
            && Permits(tables, "t", -1, 0, 1) && HiddenLocks(TableOf(tables, "t")) == 1
            && HiddenLocks(TableOf(AfterChange(tables, "t", 1, NO_LOCKS), "t")) == 0
  {
    CountsOfTwo(LockCount(1, 1, []), LockCount(1, 0, []));
    var tables: LockTable := map["t" := map[1 := LockCount(1, 1, []), 2 := LockCount(1, 0, [])]];
    AdjustIsRight(tables, "t", -1, 0, 1);
    hide Locks;
    hide HiddenLocks;
    hide AfterChange;
  }

  /** A process that holds nothing hides a lock: listeners are told though nothing changed. */
  lemma {:induction false} NothingHidden()
    ensures var tables := map["t" := map[1 := LockCount(1, 0, [])]];
            && Permits(tables, "t", 0, 1, 2) && Spurious(tables, "t", 0, 1, 2)
            && AfterChange(tables, "t", 2, Stored(Adjusted(NO_LOCKS, 0, 1))) == tables
  {
    var table: ProcessLockTable := map[1 := LockCount(1, 0, [])];
    CountFrom(table, 1);
    assert table - {1} == map[];
    assert table - {2} == table;
  }

  ghost predicate Added(total: LockCount, rest: ProcessLockTable, table: ProcessLockTable) {
    && total.numLocks + Locks(rest) == Locks(table)
    && total.numHidden + HiddenLocks(rest) == HiddenLocks(table)
    && multiset(total.processes) + multiset(rest.Keys) == multiset(table.Keys)
  }

  lemma {:induction false} AddOne(total: LockCount, rest: ProcessLockTable, table: ProcessLockTable, key: Process)
    requires Added(total, rest, table) && key in rest
    ensures key !in total.processes
    ensures Added(LockCount(total.numLocks + rest[key].numLocks, total.numHidden + rest[key].numHidden,
                            total.processes + [key]),
                  rest - {key}, table)
  {
    CountFrom(rest, key);
    var listed := multiset(total.processes);
    assert key in multiset(rest.Keys) && multiset(table.Keys)[key] <= 1;
    assert multiset(rest.Keys) == multiset((rest - {key}).Keys) + multiset{key};
    assert multiset(total.processes + [key]) == listed + multiset{key};
  }

  /** Adding up the table in whatever order it is iterated. */
  method CountWakeLocks(table: ProcessLockTable) returns (total: LockCount)
    ensures total.numLocks == Locks(table) && total.numHidden == HiddenLocks(table)
    ensures multiset(total.processes) == multiset(table.Keys)
  {
    total := NO_LOCKS;
    var rest := table;
    while rest != map[]
      invariant Added(total, rest, table)
      decreases |rest|
    {
      var key :| key in rest;
      var count := rest[key];
      AddOne(total, rest, table, key);
      total := LockCount(total.numLocks + count.numLocks, total.numHidden + count.numHidden,
                         if key !in total.processes then total.processes + [key] else total.processes);
      rest := rest - {key};
    }
  }

  lemma {:induction false} StillUpToDate(start: LockTable, log: seq<WakeLockInformation>, before: LockTable,
                                         after: LockTable)
    requires UpToDate(start, log, before) && forall t :: TableOf(after, t) == TableOf(before, t)
    ensures UpToDate(start, log, after)
  {
    forall t ensures LastTold(start, log, t) == Current(after, t) {
      assert LastTold(start, log, t) == Current(before, t);
    }
  }

  /** One process leaving one topic: first its count goes, then the topic if nothing is left. */
  lemma {:induction false} ForgetStep(before: LockTable, topic: Topic, child: Process)
    requires AllSane(before) && NothingIdle(before) && topic in before && child in before[topic]
    ensures var middle := before[topic := before[topic] - {child}];
            var after := if Locks(middle[topic]) == 0 then middle - {topic} else middle;
            && TableOf(middle, topic) == middle[topic] && OnlyAt(topic, before, middle)
            && (forall t :: TableOf(after, t) == TableOf(middle, t))
            && AllSane(after) && NothingIdle(after) && OnlyAt(topic, before, after)
            && CountChanged(before, after, topic, child, NO_LOCKS)
  {
    ChangeIsRight(before, topic, child, NO_LOCKS);
    TableAfterChange(before, topic, child, NO_LOCKS);
    var middle := before[topic := before[topic] - {child}];
    var after := if Locks(middle[topic]) == 0 then middle - {topic} else middle;
    assert after == AfterChange(before, topic, child, NO_LOCKS) by {
      assert middle - {topic} == before - {topic};
    }
    SaneTotals(middle[topic]);
    hide Locks;
    hide HiddenLocks;
    hide CountChanged;
    hide AllSane;
    hide NothingIdle;
  }

  lemma {:induction false} NothingToForget(tables: LockTable, topic: Topic, child: Process)
    requires topic in tables && child !in tables[topic]
    ensures OnlyAt(topic, tables, tables) && CountChanged(tables, tables, topic, child, NO_LOCKS)
  {
  }

  lemma {:induction false} SameInfo(middle: LockTable, after: LockTable, topic: Topic, info: WakeLockInformation)
    requires Describes(info, middle, topic) && TableOf(after, topic) == TableOf(middle, topic)
    ensures Describes(info, after, topic)
  {
  }

  /** A process is gone from every topic but the ones still to be visited, which are as they were. */
  ghost predicate Forgotten(before: LockTable, after: LockTable, rest: set<Topic>, child: Process) {
    && (forall t, q :: CountOf(after, t, q) == if q == child && t !in rest then NO_LOCKS else CountOf(before, t, q))
    && (forall t :: t in rest ==> TableOf(after, t) == TableOf(before, t))
  }

  /** One notification for every topic that lost the process, and no other. */
  ghost predicate ToldOfLoss(before: LockTable, after: LockTable, rest: set<Topic>, child: Process,
                             told: seq<WakeLockInformation>) {
    && AllDescribe(told, after)
    && NoneTwice(told)
    && (forall t :: Tells(told, t) <==> t !in rest && child in TableOf(before, t))
  }

  ghost predicate AllDescribe(told: seq<WakeLockInformation>, tables: LockTable) {
    forall i :: 0 <= i < |told| ==> Describes(told[i], tables, told[i].topic)
  }

  ghost predicate NoneTwice(told: seq<WakeLockInformation>) {
    forall i, j :: 0 <= i < j < |told| ==> told[i].topic != told[j].topic
  }

  ghost predicate Tells(told: seq<WakeLockInformation>, topic: Topic) {
    exists i :: 0 <= i < |told| && told[i].topic == topic
  }

  lemma {:induction false} NothingForgottenYet(tables: LockTable, child: Process)
    ensures Forgotten(tables, tables, tables.Keys, child)
    ensures ToldOfLoss(tables, tables, tables.Keys, child, [])
  {
  }

  lemma {:induction false} OneMoreForgotten(before: LockTable, middle: LockTable, after: LockTable, rest: set<Topic>,
                                            topic: Topic, child: Process)
    requires Forgotten(before, middle, rest, child) && CountChanged(middle, after, topic, child, NO_LOCKS)
    requires OnlyAt(topic, middle, after)
    ensures Forgotten(before, after, rest - {topic}, child)
  {
  }

  lemma {:induction false} StillDescribe(told: seq<WakeLockInformation>, middle: LockTable, after: LockTable,
                                         topic: Topic)
    requires AllDescribe(told, middle) && !Tells(told, topic) && OnlyAt(topic, middle, after)
    ensures AllDescribe(told, after)
  {
    forall i | 0 <= i < |told| ensures Describes(told[i], after, told[i].topic) {
      assert told[i].topic != topic;
    }
  }

  lemma {:induction false} DescribesTopic(info: WakeLockInformation, tables: LockTable, topic: Topic)
    requires Describes(info, tables, topic)
    ensures info.topic == topic
  {
  }

  lemma {:induction false} TellsOneMore(told: seq<WakeLockInformation>, info: WakeLockInformation, t: Topic)
    ensures Tells(told + [info], t) <==> Tells(told, t) || info.topic == t
  {
    var now := told + [info];
    assert now[|told|] == info;
    if Tells(told, t) {
      var i :| 0 <= i < |told| && told[i].topic == t;
      assert now[i].topic == t;
    }
  }

  lemma {:induction false} OneMoreTold(before: LockTable, middle: LockTable, after: LockTable, rest: set<Topic>,
                                       topic: Topic, child: Process, told: seq<WakeLockInformation>,
                                       now: seq<WakeLockInformation>)
    requires ToldOfLoss(before, middle, rest, child, told) && OnlyAt(topic, middle, after) && topic in rest
    requires Forgotten(before, middle, rest, child)
    requires if child in TableOf(middle, topic) then
               |now| == |told| + 1 && now[..|told|] == told && Describes(now[|told|], after, topic)
             else now == told
    ensures ToldOfLoss(before, after, rest - {topic}, child, now)
  {
    hide Describes;
    assert !Tells(told, topic);
    StillDescribe(told, middle, after, topic);
    if child in TableOf(middle, topic) {
      var info := now[|told|];
      assert now == told + [info];
      DescribesTopic(info, after, topic);
      forall t ensures Tells(now, t) <==> t !in rest - {topic} && child in TableOf(before, t) {
        TellsOneMore(told, info, t);
      }
    } else {
      forall t ensures Tells(now, t) <==> t !in rest - {topic} && child in TableOf(before, t) {
      }
    }
  }

  class WakeLocks {
    var tables: LockTable
    var initialized: bool
    var shuttingDown: bool
    var activeListeners: int
    /** Every notification sent, in order. */
    var log: seq<WakeLockInformation>
    /** The tables when the listener that has been there longest came, and the log length then. */
    ghost var joined: LockTable
    ghost var since: nat

    /** A topic is stored exactly while its recount is positive. */
    ghost predicate Sound()
      reads `tables, `initialized, `shuttingDown
    {
      && AllSane(tables) && NothingIdle(tables)
      && (!initialized || shuttingDown ==> tables == map[])
    }

    /** And a listener present throughout knows the state and the holders of every topic. */
    ghost predicate Valid()
      reads this
    {
      && Sound() && activeListeners >= 0 && since <= |log|
      && (activeListeners > 0 && !shuttingDown ==> UpToDate(joined, log[since..], tables))
    }

    constructor ()
      ensures Valid() && tables == map[] && !initialized && !shuttingDown && activeListeners == 0
    {
      tables, initialized, shuttingDown, activeListeners, log := map[], false, false, 0, [];
      joined, since := map[], 0;
    }

    method Init()
      requires Sound() && !initialized
      modifies `tables, `initialized
      ensures Sound() && initialized && tables == old(tables)
    {
      tables := map[];
      initialized := true;
    }

    method EnableWakeLockNotifications()
      requires Valid()
      modifies `activeListeners, `joined, `since
      ensures Valid() && activeListeners == old(activeListeners) + 1
      ensures if old(activeListeners) == 0 then joined == tables && since == |log|
              else joined == old(joined) && since == old(since)
    {
      if activeListeners == 0 {
        joined, since := tables, |log|;
      }
      activeListeners := activeListeners + 1;
    }

    method DisableWakeLockNotifications()
      requires Valid() && activeListeners > 0
      modifies `activeListeners
      ensures Valid() && activeListeners == old(activeListeners) - 1
    {
      activeListeners := activeListeners - 1;
    }

    method ClearOnShutdown()
      requires Valid()
      modifies `tables, `shuttingDown
      ensures Valid() && shuttingDown && tables == map[]
    {
      shuttingDown := true;
      tables := map[];
    }

    method GetWakeLockInfo(topic: Topic) returns (info: WakeLockInformation)
      requires Sound()
      modifies `tables, `initialized
      ensures Sound() && tables == old(tables)
      ensures if shuttingDown then info == WakeLockInformation("", 0, 0, []) else Describes(info, tables, topic)
    {
      if shuttingDown {
        return WakeLockInformation("", 0, 0, []);
      }
      if !initialized {
        Init();
      }
      if topic !in tables {
        return WakeLockInformation(topic, 0, 0, []);
      }
      var total := CountWakeLocks(tables[topic]);
      info := WakeLockInformation(topic, total.numLocks, total.numHidden, total.processes);
    }

    /** Broadcasting one topic's state after the tables changed at it. */
    method NotifyWakeLockChange(info: WakeLockInformation, ghost before: LockTable)
      requires since <= |log| && UpToDate(joined, log[since..], before)
      requires OnlyAt(info.topic, before, tables) && Describes(info, tables, info.topic)
      modifies `log
      ensures log == old(log) + [info] && UpToDate(joined, log[since..], tables)
    {
      OneTold(joined, log[since..], before, info, tables);
      assert (log + [info])[since..] == log[since..] + [info];
      log := log + [info];
    }

    /** The counting half of `ModifyWakeLock`: the totals are adjusted along with the one count. They are then the
        recount unless a process gave up its last lock and left some hidden. */
    method AdjustCounts(topic: Topic, lockAdjust: int, hiddenAdjust: int, p: Process)
        returns (oldState: WakeLockState, processWasLocked: bool, processCount: LockCount, totalCount: LockCount)
      requires Sound() && initialized && !shuttingDown && Permits(tables, topic, lockAdjust, hiddenAdjust, p)
      modifies `tables
      ensures Sound() && OnlyAt(topic, old(tables), tables)
      ensures processCount == Adjusted(old(CountOf(tables, topic, p)), lockAdjust, hiddenAdjust)
      ensures CountChanged(old(tables), tables, topic, p, Stored(processCount))
      ensures totalCount.numLocks == Locks(TableOf(tables, topic))
      ensures totalCount.numHidden == HiddenLocks(TableOf(tables, topic)) <==>
              processCount.numLocks > 0 || processCount.numHidden == 0
      ensures old(Current(tables, topic)) != Current(tables, topic) ||
              old(Spurious(tables, topic, lockAdjust, hiddenAdjust, p)) <==>
              || oldState != ComputeWakeLockState(totalCount.numLocks, totalCount.numHidden)
              || processWasLocked != (processCount.numLocks > 0)
    {
      hide Locks;
      hide HiddenLocks;
      hide AllSane;
      hide NothingIdle;
      hide CountChanged;
      hide OnlyAt;
      hide Current;
      hide Sane;
      hide AfterChange;
      hide Spurious;
      hide Stored;
      hide TableOf;
      hide Of;
      hide ComputeWakeLockState;
      ghost var before := tables;
      var table;
      table, processCount, totalCount := CountsBefore(topic, p);
      Totals(before, topic, p);
      assert processCount.numLocks >= processCount.numHidden;
      assert lockAdjust >= 0 || processCount.numLocks > 0;
      assert hiddenAdjust >= 0 || processCount.numHidden > 0;
      assert totalCount.numLocks >= totalCount.numHidden;
      assert lockAdjust >= 0 || totalCount.numLocks > 0;
      assert hiddenAdjust >= 0 || totalCount.numHidden > 0;

      oldState := ComputeWakeLockState(totalCount.numLocks, totalCount.numHidden);
      processWasLocked := processCount.numLocks > 0;
      processCount := Adjusted(processCount, lockAdjust, hiddenAdjust);
      totalCount := Adjusted(totalCount, lockAdjust, hiddenAdjust);
      AdjustIsRight(before, topic, lockAdjust, hiddenAdjust, p);
      TestIsRight(before, topic, lockAdjust, hiddenAdjust, p);

      Put(topic, table, p, processCount, totalCount.numLocks, before);
    }

    /** The counts as they are; a topic not known gets an empty table. */
    method CountsBefore(topic: Topic, p: Process)
        returns (table: ProcessLockTable, processCount: LockCount, totalCount: LockCount)
      modifies `tables
      ensures table == old(TableOf(tables, topic)) && processCount == Of(table, p)
      ensures totalCount.numLocks == Locks(table) && totalCount.numHidden == HiddenLocks(table)
      ensures tables == old(tables) || tables == old(tables)[topic := table]
    {
      table, processCount, totalCount := map[], NO_LOCKS, NO_LOCKS;
      if topic !in tables {
        tables := tables[topic := table];
      } else {
        table := tables[topic];
        if p in table {
          processCount := table[p];
        }
        totalCount := CountWakeLocks(table);
      }
    }

    /** Stores or removes the count of a process, and removes the topic once the total is zero. */
    method Put(topic: Topic, table: ProcessLockTable, p: Process, processCount: LockCount, total: nat,
               ghost before: LockTable)
      requires AllSane(before) && processCount.processes == [] && table == TableOf(before, topic)
      requires tables == before || tables == before[topic := table]
      requires total == Locks(TableOf(AfterChange(before, topic, p, Stored(processCount)), topic))
      modifies `tables
      ensures tables == AfterChange(before, topic, p, Stored(processCount))
    {
      hide AfterChange;
      hide AllSane;
      hide Stored;
      hide Locks;
      var changed := table;
      if processCount.numLocks > 0 {
        changed := changed[p := processCount];
      } else {
        changed := changed - {p};
      }
      UpdatesAreChange(before, topic, p, processCount, changed, total);
      tables := tables[topic := changed];
      if total == 0 {
        tables := tables - {topic};
      }
    }

    method ModifyWakeLock(topic: Topic, lockAdjust: int, hiddenAdjust: int, p: Process)
      requires Valid() && (shuttingDown || Permits(tables, topic, lockAdjust, hiddenAdjust, p))
      modifies `tables, `initialized, `log
      ensures Valid()
      ensures shuttingDown ==> tables == old(tables) && log == old(log)
      ensures !shuttingDown ==> CountChanged(old(tables), tables, topic, p,
                                             Stored(Adjusted(old(CountOf(tables, topic, p)), lockAdjust, hiddenAdjust)))
      ensures if !shuttingDown && activeListeners > 0 &&
                 (Current(tables, topic) != old(Current(tables, topic)) ||
                  old(Spurious(tables, topic, lockAdjust, hiddenAdjust, p))) then
                |log| == |old(log)| + 1 && log[..|old(log)|] == old(log) && Describes(log[|old(log)|], tables, topic)
              else log == old(log)
    {
      hide UpToDate;
      hide CountChanged;
      hide OnlyAt;
      hide Current;
      hide ComputeWakeLockState;
      if shuttingDown {
        return;
      }
      if !initialized {
        Init();
      }
      ghost var before := tables;
      var oldState, processWasLocked, processCount, totalCount := AdjustCounts(topic, lockAdjust, hiddenAdjust, p);
      if activeListeners > 0 {
        if oldState != ComputeWakeLockState(totalCount.numLocks, totalCount.numHidden) ||
           processWasLocked != (processCount.numLocks > 0) {
          var info := GetWakeLockInfo(topic);
          NotifyWakeLockChange(info, before);
        } else {
          NoneTold(joined, log[since..], before, topic, tables);
        }
      }
    }

    /** The body of the loop over topics when a process goes away. */
    method ForgetAt(topic: Topic, child: Process)
      requires Valid() && !shuttingDown && topic in tables
      modifies `tables, `log
      ensures Valid() && OnlyAt(topic, old(tables), tables)
      ensures CountChanged(old(tables), tables, topic, child, NO_LOCKS)
      ensures old(tables.Keys) - {topic} <= tables.Keys
      ensures if activeListeners > 0 && child in old(tables[topic]) then
                |log| == |old(log)| + 1 && log[..|old(log)|] == old(log) && Describes(log[|old(log)|], tables, topic)
              else log == old(log)
    {
      hide UpToDate;
      hide Locks;
      hide HiddenLocks;
      hide AllSane;
      hide NothingIdle;
      hide Describes;
      hide TableOf;
      hide CountOf;
      hide OnlyAt;
      hide CountChanged;
      ghost var before := tables;
      if child in tables[topic] {
        ForgetStep(before, topic, child);
        tables := tables[topic := tables[topic] - {child}];
        ghost var middle := tables;
        var totalCount := CountWakeLocks(tables[topic]);
        var info := WakeLockInformation(topic, totalCount.numLocks, totalCount.numHidden, totalCount.processes);
        DescribesTotal(tables, topic, totalCount);
        if activeListeners > 0 {
          NotifyWakeLockChange(info, before);
        }
        if totalCount.numLocks == 0 {
          tables := tables - {topic};
          SameInfo(middle, tables, topic, info);
          if activeListeners > 0 {
            StillUpToDate(joined, log[since..], middle, tables);
          }
        }
      } else {
        NothingToForget(tables, topic, child);
      }
    }

    method ObserveContentShutdown(child: Process)
      requires Valid()
      modifies `tables, `log
      ensures Valid()
      ensures shuttingDown ==> tables == old(tables) && log == old(log)
      ensures !shuttingDown ==> Forgotten(old(tables), tables, {}, child)
      ensures !shuttingDown && activeListeners > 0 ==>
                old(log) <= log && ToldOfLoss(old(tables), tables, {}, child, log[|old(log)|..])
    {
      hide UpToDate;
      hide OnlyAt;
      hide CountChanged;
      hide Forgotten;
      hide ToldOfLoss;
      hide AllSane;
      hide NothingIdle;
      if shuttingDown {
        return;
      }
      ghost var before, heard := tables, log;
      var rest := tables.Keys;
      NothingForgottenYet(before, child);
      assert log[|heard|..] == [];
      while rest != {}
        invariant Valid() && rest <= tables.Keys && heard <= log
        invariant Forgotten(before, tables, rest, child)
        invariant activeListeners > 0 ==> ToldOfLoss(before, tables, rest, child, log[|heard|..])
        decreases rest
      {
        var topic :| topic in rest;
        ghost var middle, told := tables, log[|heard|..];
        ForgetAt(topic, child);
        OneMoreForgotten(before, middle, tables, rest, topic, child);
        if activeListeners > 0 {
          OneMoreTold(before, middle, tables, rest, topic, child, told, log[|heard|..]);
        }
        rest := rest - {topic};
      }
    }
  }
}
