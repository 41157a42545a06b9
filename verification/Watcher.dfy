/** The file system watcher (aisd/src/fs/watcher.rs): a thread that reads change events from the kernel and sends one
    message per batch into a channel of 16 places, and a loop that rebuilds the index 500 ms after the last message. */
module Watcher {
  import opened Indexer

  const CAPACITY: nat := 16

  /* ---------- the loop ---------- */

  /** The loop: whether a rebuild is due, whether the loop still runs, and what it has done so far. */
  datatype Task = Task(pending: bool, running: bool, received: nat, rebuilds: nat)

  /** What the loop wakes up for: a message, the end of the channel, or the end of the 500 ms. */
  datatype Wake = Message | Closed | Elapsed

  function Awaken(t: Task, wake: Wake): Task
  {
    if !t.running then t
    else
      match wake
      case Message => t.(pending := true, received := t.received + 1)
      case Closed => t.(running := false)
      case Elapsed => if t.pending then t.(pending := false, rebuilds := t.rebuilds + 1) else t
  }

  /** One wake, with the directory tree that a rebuild would find, and the table it leaves. */
  function AwakenOne(t: Task, table: Table, wake: Wake, tree: Listing): (Task, Table)
  {
    (Awaken(t, wake), if t.running && t.pending && wake.Elapsed? then Rebuild(tree).0 else table)
  }

  /** A run of the loop. */
  function AwakenAll(t: Task, table: Table, wakes: seq<(Wake, Listing)>): (Task, Table)
    decreases |wakes|
  {
    if wakes == [] then (t, table)
    else
      var (u, rebuilt) := AwakenOne(t, table, wakes[0].0, wakes[0].1);
      AwakenAll(u, rebuilt, wakes[1..])
  }

  lemma {:induction false} StoppedStays(t: Task, table: Table, wakes: seq<(Wake, Listing)>)
    requires !t.running
    ensures AwakenAll(t, table, wakes) == (t, table)
    decreases |wakes|
  {
    if wakes != [] { StoppedStays(t, table, wakes[1..]); }
  }

  /* ---------- when the loop rebuilds ---------- */

  /** By the i-th wake a message has come, and since then 500 ms have not gone by; or one was waiting from the start. */
  ghost predicate Armed(pending: bool, wakes: seq<(Wake, Listing)>, i: nat)
    requires i <= |wakes|
  {
    || (exists m :: 0 <= m < i && wakes[m].0.Message? && NoneElapsed(wakes, m + 1, i))
    || (pending && NoneElapsed(wakes, 0, i))
  }

  ghost predicate NoneElapsed(wakes: seq<(Wake, Listing)>, from: nat, to: nat)
    requires to <= |wakes|
  {
    forall j :: from <= j < to ==> !wakes[j].0.Elapsed?
  }

  /** The channel is open before the i-th wake. */
  ghost predicate IsOpen(wakes: seq<(Wake, Listing)>, i: nat)
    requires i <= |wakes|
  {
    forall j :: 0 <= j < i ==> !wakes[j].0.Closed?
  }

  /** At the i-th wake 500 ms have gone by since a message, and the channel is still open. */
  ghost predicate Fires(pending: bool, wakes: seq<(Wake, Listing)>, i: nat)
  {
    i < |wakes| && wakes[i].0.Elapsed? && IsOpen(wakes, i) && Armed(pending, wakes, i)
  }

  ghost predicate LastFires(pending: bool, wakes: seq<(Wake, Listing)>, i: nat)
  {
    Fires(pending, wakes, i) && forall j: nat :: i < j ==> !Fires(pending, wakes, j)
  }

  ghost function Firings(pending: bool, wakes: seq<(Wake, Listing)>): (firings: set<nat>)
    ensures forall i: nat :: i in firings <==> Fires(pending, wakes, i)
  {
    set i: nat | i < |wakes| && Fires(pending, wakes, i)
  }

  lemma {:induction false} AwakenAllSnoc(t: Task, table: Table, wakes: seq<(Wake, Listing)>, last: (Wake, Listing))
    ensures AwakenAll(t, table, wakes + [last]) ==
      var (u, rebuilt) := AwakenAll(t, table, wakes); AwakenOne(u, rebuilt, last.0, last.1)
    decreases |wakes|
  {
    var all := wakes + [last];
    if wakes == [] {
      assert all[1..] == [];
    } else {
      var (u, rebuilt) := AwakenOne(t, table, wakes[0].0, wakes[0].1);
      assert all[1..] == wakes[1..] + [last];
      AwakenAllSnoc(u, rebuilt, wakes[1..], last);
    }
  }

  /** What one more wake does to the state of the loop so far. */
  lemma ArmedSnoc(pending: bool, wakes: seq<(Wake, Listing)>, last: (Wake, Listing))
    ensures var all, n := wakes + [last], |wakes|;
      && (forall i: nat :: i <= n ==> (IsOpen(all, i) <==> IsOpen(wakes, i)))
      && (forall i: nat :: i <= n ==> (Armed(pending, all, i) <==> Armed(pending, wakes, i)))
      && (IsOpen(all, n + 1) <==> IsOpen(wakes, n) && !last.0.Closed?)
      && (Armed(pending, all, n + 1) <==> last.0.Message? || (Armed(pending, wakes, n) && !last.0.Elapsed?))
  {
    var all, n := wakes + [last], |wakes|;
    forall from: nat, to: nat | to <= n ensures NoneElapsed(all, from, to) <==> NoneElapsed(wakes, from, to) {
      assert forall j :: from <= j < to ==> all[j] == wakes[j];
    }
    forall i: nat | i <= n ensures IsOpen(all, i) <==> IsOpen(wakes, i) {
      assert forall j :: 0 <= j < i ==> all[j] == wakes[j];
    }
    forall i: nat | i <= n ensures Armed(pending, all, i) <==> Armed(pending, wakes, i) {
      if m :| 0 <= m < i && all[m].0.Message? && NoneElapsed(all, m + 1, i) {
        assert wakes[m].0.Message? && NoneElapsed(wakes, m + 1, i);
      }
      if m :| 0 <= m < i && wakes[m].0.Message? && NoneElapsed(wakes, m + 1, i) {
        assert all[m].0.Message? && NoneElapsed(all, m + 1, i);
      }
    }
    ArmedAtLast(pending, wakes, last);
    assert all[n] == last;
  }

  lemma ArmedAtLast(pending: bool, wakes: seq<(Wake, Listing)>, last: (Wake, Listing))
    ensures Armed(pending, wakes + [last], |wakes| + 1) <==>
      last.0.Message? || (Armed(pending, wakes + [last], |wakes|) && !last.0.Elapsed?)
  {
    var all, n := wakes + [last], |wakes|;
    assert all[n] == last;
    if last.0.Message? { assert NoneElapsed(all, n + 1, n + 1); }
    if m :| 0 <= m < n + 1 && all[m].0.Message? && NoneElapsed(all, m + 1, n + 1) && m < n {
      assert NoneElapsed(all, m + 1, n);
    }
    if m :| 0 <= m < n && all[m].0.Message? && NoneElapsed(all, m + 1, n) && !last.0.Elapsed? {
      assert NoneElapsed(all, m + 1, n + 1);
    }
  }

  lemma FiresSnoc(pending: bool, wakes: seq<(Wake, Listing)>, last: (Wake, Listing))
    ensures var all, n := wakes + [last], |wakes|;
      && (forall i: nat :: i < n ==> (Fires(pending, all, i) <==> Fires(pending, wakes, i)))
      && (Fires(pending, all, n) <==> last.0.Elapsed? && IsOpen(wakes, n) && Armed(pending, wakes, n))
  {
    var all, n := wakes + [last], |wakes|;
    ArmedSnoc(pending, wakes, last);
    assert all[n] == last;
    forall i: nat | i < n ensures Fires(pending, all, i) <==> Fires(pending, wakes, i) {
      assert all[i] == wakes[i];
      assert IsOpen(all, i) <==> IsOpen(wakes, i);
      assert Armed(pending, all, i) <==> Armed(pending, wakes, i);
    }
  }

  lemma OneMore(before: set<nat>, after: set<nat>, n: nat, fires: bool)
    requires n !in before && forall i: nat :: i in after <==> i in before || (i == n && fires)
    ensures |after| == |before| + if fires then 1 else 0
  {
    assert after == if fires then before + {n} else before;
  }

  lemma FiringsSnoc(pending: bool, wakes: seq<(Wake, Listing)>, last: (Wake, Listing))
    ensures var all := wakes + [last];
      |Firings(pending, all)| == |Firings(pending, wakes)| + if Fires(pending, all, |wakes|) then 1 else 0
  {
    var all, n := wakes + [last], |wakes|;
    FiresSnoc(pending, wakes, last);
    assert !Fires(pending, wakes, n);
    forall i: nat ensures Fires(pending, all, i) <==> Fires(pending, wakes, i) || (i == n && Fires(pending, all, n)) {
      assert i > n ==> !Fires(pending, all, i) && !Fires(pending, wakes, i);
    }
    OneMore(Firings(pending, wakes), Firings(pending, all), n, Fires(pending, all, n));
  }

  /** What the loop has made of its table: that of the tree at the last firing, or what it was. */
  ghost predicate TableOfLast(pending: bool, wakes: seq<(Wake, Listing)>, table: Table, table': Table)
  {
    && (forall i: nat :: LastFires(pending, wakes, i) ==> table' == Rebuild(wakes[i].1).0)
    && ((forall i: nat :: !Fires(pending, wakes, i)) ==> table' == table)
  }

  lemma TableSnoc(pending: bool, wakes: seq<(Wake, Listing)>, last: (Wake, Listing), table: Table, table': Table)
    requires TableOfLast(pending, wakes, table, table')
    ensures TableOfLast(pending, wakes + [last], table,
                        if Fires(pending, wakes + [last], |wakes|) then Rebuild(last.1).0 else table')
  {
    var all, n := wakes + [last], |wakes|;
    FiresSnoc(pending, wakes, last);
    if !Fires(pending, all, n) {
      forall i: nat | LastFires(pending, all, i) ensures LastFires(pending, wakes, i) && all[i] == wakes[i] {
        forall j: nat | i < j ensures !Fires(pending, wakes, j) { assert j < n ==> !Fires(pending, all, j); }
      }
      if forall i: nat :: !Fires(pending, all, i) {
        forall i: nat ensures !Fires(pending, wakes, i) { assert i < n ==> !Fires(pending, all, i); }
      }
    } else {
      forall i: nat | LastFires(pending, all, i) ensures i == n { assert !(i < n); }
    }
  }

  /** Whatever wakes the loop: it rebuilds once for every time that 500 ms have gone by since a message and the channel
      is open, and leaves the table of the tree at the last of these, or the one it found. */
  lemma {:induction false} LoopLaw(t: Task, table: Table, wakes: seq<(Wake, Listing)>)
    requires t.running
    ensures var (u, table') := AwakenAll(t, table, wakes);
      && (u.running <==> IsOpen(wakes, |wakes|))
      && (u.running ==> (u.pending <==> Armed(t.pending, wakes, |wakes|)))
      && u.rebuilds == t.rebuilds + |Firings(t.pending, wakes)|
      && TableOfLast(t.pending, wakes, table, table')
    decreases |wakes|
  {
    if wakes == [] {
      assert Firings(t.pending, wakes) == {};
      assert NoneElapsed(wakes, 0, 0);
    } else {
      var n := |wakes| - 1;
      var init, last := wakes[..n], wakes[n];
      assert wakes == init + [last];
      var (u, table') := AwakenAll(t, table, init);
      LoopLaw(t, table, init);
      AwakenAllSnoc(t, table, init, last);
      ArmedSnoc(t.pending, init, last);
      FiresSnoc(t.pending, init, last);
      FiringsSnoc(t.pending, init, last);
      TableSnoc(t.pending, init, last, table, table');
    }
  }

  class WatcherTask {
    var debouncePending: bool
    var running: bool
    var received: nat
    var rebuilds: nat
    const index: Index

    ghost function Current(): Task
      reads this
    {
      Task(debouncePending, running, received, rebuilds)
    }

    constructor (index: Index)
      ensures Current() == Task(false, true, 0, 0) && this.index == index
    {
      debouncePending, running, received, rebuilds := false, true, 0, 0;
      this.index := index;
    }

    method Run(wakes: seq<(Wake, Listing)>)
      requires running
      modifies this, index
      ensures (Current(), index.Current()) == AwakenAll(old(Current()), old(index.Current()), wakes)
    {
      var i := 0;
      while i < |wakes|
        invariant 0 <= i <= |wakes| && running
        invariant AwakenAll(Current(), index.Current(), wakes[i..]) ==
          AwakenAll(old(Current()), old(index.Current()), wakes)
      {
        assert wakes[i..][1..] == wakes[i + 1..];
        var (wake, tree) := wakes[i];
        if wake.Closed? {
          running := false;
          StoppedStays(Current(), index.Current(), wakes[i + 1..]);
          return;
        }
        i := i + 1;
        if debouncePending {
          if wake.Elapsed? {
            debouncePending := false;
            rebuilds := rebuilds + 1;
            var ok := index.RebuildIndex(tree);
          } else {
            received := received + 1;
            debouncePending := true;
          }
        } else if wake.Message? {
          received := received + 1;
          debouncePending := true;
        }
      }
    }
  }

  /* ---------- the thread, the channel and the loop ---------- */

  /** The thread waits for events, or holds a message that the channel may have no room for. */
  datatype Sender = Reading | Sending

  /** All of it, with a clock that counts steps. `kernel` holds the times of the reported changes not yet read,
      `queue` the number of messages in the channel; `rebuilding` says whether a rebuild is under way. */
  datatype System = System(
    clock: nat,
    tree: Listing,
    kernel: seq<nat>,
    sender: Sender,
    queue: nat,
    task: Task,
    rebuilding: bool,
    table: Table,
    succeeded: bool,
    lastChange: nat,
    lastReported: nat,
    lastRead: nat,
    lastStart: nat,
    reported: nat)

  function Initial(tree: Listing, table: Table): System
  {
    System(1, tree, [], Reading, 0, Task(false, true, 0, 0), false, table, true, 0, 0, 0, 0, 0)
  }

  datatype Action =
    | Change(tree: Listing, isReported: bool)
    | ReadBatch(size: nat)
    | Send
    | Receive
    | Timeout
    | Finish(read: Listing)
    | Fail(table: Table)

  /** A rebuild begins when the time is up, and ends with what it has read. What it reads while nothing changes is the
      tree; if something changes it may be anything. Or the store fails, and leaves any table. The loop reads nothing
      between the two, so its state changes when the rebuild ends. */
  predicate Enabled(s: System, a: Action)
  {
    match a
    case Change(_, _) => true
    case ReadBatch(size) => s.sender.Reading? && 1 <= size <= |s.kernel|
    case Send => s.sender.Sending? && s.queue < CAPACITY
    case Receive => s.queue > 0 && !s.rebuilding
    case Timeout => s.task.pending && !s.rebuilding
    case Finish(read) => s.rebuilding && (s.lastChange < s.lastStart ==> read == s.tree)
    case Fail(_) => s.rebuilding
  }

  function Step(s: System, a: Action): System
    requires Enabled(s, a)
  {
    var t := s.(clock := s.clock + 1);
    match a
    case Change(tree, isReported) =>
      var u := t.(tree := tree, lastChange := s.clock);
      if isReported then u.(kernel := s.kernel + [s.clock], lastReported := s.clock, reported := s.reported + 1) else u
    case ReadBatch(size) => t.(kernel := s.kernel[size..], lastRead := s.kernel[size - 1], sender := Sending)
    case Send => t.(sender := Reading, queue := s.queue + 1)
    case Receive =>
      var (task, table) := AwakenOne(s.task, s.table, Message, s.tree);
      t.(queue := s.queue - 1, task := task, table := table)
    case Timeout => t.(rebuilding := true, lastStart := s.clock)
    case Finish(read) =>
      var (task, table) := AwakenOne(s.task, s.table, Elapsed, read);
      t.(rebuilding := false, task := task, table := table, succeeded := true)
    case Fail(table) => t.(rebuilding := false, task := Awaken(s.task, Elapsed), table := table, succeeded := false)
  }

  /** Everything the environment does not do. */
  predicate Internal(a: Action)
  {
    !a.Change?
  }

  predicate Quiet(s: System)
  {
    s.sender.Reading? && s.queue == 0 && !s.task.pending && !s.rebuilding
  }

  ghost predicate Run(s: System, actions: seq<Action>, t: System)
    decreases |actions|
  {
    if actions == [] then s == t
    else Enabled(s, actions[0]) && Run(Step(s, actions[0]), actions[1..], t)
  }

  /* ---------- invariants ---------- */

  /** The times the kernel holds lie after the last one read, in order, and end with the last one reported. */
  ghost predicate KernelInv(kernel: seq<nat>, lastRead: nat, lastReported: nat, clock: nat)
  {
    && lastRead <= lastReported < clock
    && (forall i :: 0 <= i < |kernel| ==> lastRead < kernel[i] <= lastReported)
    && (forall i, j :: 0 <= i < j < |kernel| ==> kernel[i] < kernel[j])
    && (if kernel == [] then lastRead == lastReported else kernel[|kernel| - 1] == lastReported)
  }

  ghost predicate OnItsWay(s: System)
  {
    s.sender.Sending? || s.queue > 0 || (s.task.pending && !s.rebuilding)
  }

  /** Nothing changed since a rebuild that succeeded: the table is that of the tree. */
  ghost predicate TableInv(s: System)
  {
    !s.rebuilding && s.succeeded && s.lastStart > s.lastChange ==> s.table == Rebuild(s.tree).0
  }

  ghost predicate CountInv(s: System)
  {
    && s.queue <= 16 && s.task.running && (s.rebuilding ==> s.task.pending)
    && s.task.rebuilds + (if s.task.pending then 1 else 0) <= s.task.received
    && s.task.received + s.queue + (if s.sender.Sending? then 1 else 0) + |s.kernel| <= s.reported
  }

  ghost predicate Inv(s: System)
  {
    && KernelInv(s.kernel, s.lastRead, s.lastReported, s.clock)
    && s.lastStart < s.clock && s.lastChange < s.clock && s.lastReported <= s.lastChange
    && (s.lastRead > s.lastStart ==> OnItsWay(s))
    && CountInv(s)
    && TableInv(s)
  }

  lemma BatchKeepsKernel(kernel: seq<nat>, lastRead: nat, lastReported: nat, clock: nat, size: nat)
    requires KernelInv(kernel, lastRead, lastReported, clock) && 1 <= size <= |kernel|
    ensures KernelInv(kernel[size..], kernel[size - 1], lastReported, clock + 1)
  {
  }

  lemma ChangeKeepsKernel(kernel: seq<nat>, lastRead: nat, lastReported: nat, clock: nat)
    requires KernelInv(kernel, lastRead, lastReported, clock)
    ensures KernelInv(kernel + [clock], lastRead, clock, clock + 1)
  {
  }

  lemma TickKeepsKernel(kernel: seq<nat>, lastRead: nat, lastReported: nat, clock: nat)
    requires KernelInv(kernel, lastRead, lastReported, clock)
    ensures KernelInv(kernel, lastRead, lastReported, clock + 1)
  {
  }

  /** What a step does to the kernel's changes and the stamps of the last ones. */
  ghost predicate KernelBecomes(s: System, a: Action, t: System)
    requires Enabled(s, a)
  {
    && t.clock == s.clock + 1
    && if a.ReadBatch? then
         t.kernel == s.kernel[a.size..] && t.lastRead == s.kernel[a.size - 1] && t.lastReported == s.lastReported
       else if a.Change? && a.isReported then
         t.kernel == s.kernel + [s.clock] && t.lastRead == s.lastRead && t.lastReported == s.clock
       else t.kernel == s.kernel && t.lastRead == s.lastRead && t.lastReported == s.lastReported
  }

  lemma StepBecomes(s: System, a: Action)
    requires Enabled(s, a)
    ensures KernelBecomes(s, a, Step(s, a))
  {
  }

  lemma BecomesKernel(s: System, a: Action, t: System)
    requires KernelInv(s.kernel, s.lastRead, s.lastReported, s.clock) && Enabled(s, a) && KernelBecomes(s, a, t)
    ensures KernelInv(t.kernel, t.lastRead, t.lastReported, t.clock)
  {
    if a.ReadBatch? {
      BatchKeepsKernel(s.kernel, s.lastRead, s.lastReported, s.clock, a.size);
    } else if a.Change? && a.isReported {
      ChangeKeepsKernel(s.kernel, s.lastRead, s.lastReported, s.clock);
    } else {
      TickKeepsKernel(s.kernel, s.lastRead, s.lastReported, s.clock);
    }
  }

  lemma StepKernel(s: System, a: Action)
    requires KernelInv(s.kernel, s.lastRead, s.lastReported, s.clock) && Enabled(s, a)
    ensures var t := Step(s, a); KernelInv(t.kernel, t.lastRead, t.lastReported, t.clock)
  {
    StepBecomes(s, a);
    BecomesKernel(s, a, Step(s, a));
  }

  lemma StepCount(s: System, a: Action)
    requires Inv(s) && Enabled(s, a)
    ensures CountInv(Step(s, a))
  {
  }

  lemma StepTable(s: System, a: Action)
    requires Inv(s) && Enabled(s, a)
    ensures TableInv(Step(s, a))
  {
  }

  lemma StepInv(s: System, a: Action)
    requires Inv(s) && Enabled(s, a)
    ensures Inv(Step(s, a))
  {
    StepKernel(s, a);
    StepCount(s, a);
    StepTable(s, a);
  }

  /** In every reachable state the channel is within its bound, rebuilds plus the pending flag never exceed the messages
      received, and these with all that is still under way never exceed the changes reported. */
  lemma {:induction false} RunsKeepInv(s: System, actions: seq<Action>, t: System)
    requires Inv(s) && Run(s, actions, t)
    ensures Inv(t)
    decreases |actions|
  {
    if actions != [] {
      StepInv(s, actions[0]);
      RunsKeepInv(Step(s, actions[0]), actions[1..], t);
    }
  }

  lemma InitialInv(tree: Listing, table: Table)
    ensures Inv(Initial(tree, table))
  {
  }

  /** No update is lost: whenever the thread is not blocked, the channel is empty and the loop is idle, the last rebuild
      started after the last change that was read, and after the last one reported if none waits in the kernel. If that
      was the last change at all and the rebuild succeeded, the table is that of the tree as it is now. */
  lemma QuietIsFresh(tree: Listing, table: Table, actions: seq<Action>, s: System)
    requires Run(Initial(tree, table), actions, s) && Quiet(s)
    ensures s.lastRead <= s.lastStart && (s.lastRead > 0 ==> s.lastRead < s.lastStart)
    ensures s.kernel == [] && s.reported > 0 && s.lastReported == s.lastChange && s.succeeded ==>
      s.table == Rebuild(s.tree).0
  {
    InitialInv(tree, table);
    RunsKeepInv(Initial(tree, table), actions, s);
    StampsDiffer(Initial(tree, table), actions, s);
  }

  /** No two things happen at the same time. */
  ghost predicate Stamped(s: System)
  {
    && (s.lastChange > 0 ==> s.lastChange != s.lastStart)
    && (s.lastRead > 0 ==> s.lastRead != s.lastStart)
    && (forall i :: 0 <= i < |s.kernel| ==> s.kernel[i] != s.lastStart)
    && (s.reported > 0 ==> s.lastReported > 0)
  }

  lemma StepStamps(s: System, a: Action)
    requires Inv(s) && Stamped(s) && Enabled(s, a)
    ensures Stamped(Step(s, a))
  {
    var t := Step(s, a);
    if a.ReadBatch? { assert forall i :: 0 <= i < |t.kernel| ==> t.kernel[i] == s.kernel[a.size + i]; }
  }

  lemma {:induction false} StampsDiffer(s: System, actions: seq<Action>, t: System)
    requires Inv(s) && Stamped(s) && Run(s, actions, t)
    ensures Stamped(t)
    decreases |actions|
  {
    if actions != [] {
      StepInv(s, actions[0]);
      StepStamps(s, actions[0]);
      StampsDiffer(Step(s, actions[0]), actions[1..], t);
    }
  }

  /* ---------- it comes to rest ---------- */

  function Work(s: System): nat
  {
    5 * |s.kernel| + (if s.sender.Sending? then 4 else 0) + 3 * s.queue
      + (if s.rebuilding then 1 else if s.task.pending then 2 else 0)
  }

  /** Each internal step leaves less to do, and as long as there is something to do one can be taken: a full channel
      blocks the thread but never the loop. */
  lemma InternalStepsEnd(s: System, a: Action)
    requires Inv(s) && Enabled(s, a) && Internal(a)
    ensures Work(Step(s, a)) < Work(s)
  {
  }

  lemma NeverStuck(s: System)
    requires Inv(s)
    ensures (Work(s) > 0) <==> exists a :: Internal(a) && Enabled(s, a)
  {
    if Work(s) > 0 {
      var a := if s.rebuilding then Finish(s.tree)
               else if s.queue > 0 then Receive
               else if s.sender.Sending? then Send
               else if s.task.pending then Timeout
               else ReadBatch(|s.kernel|);
      assert Internal(a) && Enabled(s, a);
    }
  }

  /* ---------- the system runs the loop ---------- */

  /** What wakes the loop in a run of the system. */
  function WakesOf(actions: seq<Action>): seq<(Wake, Listing)>
  {
    if actions == [] then []
    else
      (match actions[0]
       case Receive => [(Message, Unreadable)]
       case Finish(read) => [(Elapsed, read)]
       case _ => []) + WakesOf(actions[1..])
  }

  lemma {:induction false} SystemRunsLoop(s: System, actions: seq<Action>, t: System)
    requires Run(s, actions, t) && forall a <- actions :: !a.Fail?
    ensures AwakenAll(s.task, s.table, WakesOf(actions)) == (t.task, t.table)
    decreases |actions|
  {
    if actions != [] {
      var a, u := actions[0], Step(s, actions[0]);
      assert a in actions;
      SystemRunsLoop(u, actions[1..], t);
      if a.Receive? || a.Finish? {
        var wake := WakesOf(actions)[0];
        assert WakesOf(actions)[1..] == WakesOf(actions[1..]);
        assert AwakenOne(s.task, s.table, wake.0, wake.1) == (u.task, u.table);
      } else {
        assert WakesOf(actions) == WakesOf(actions[1..]);
      }
    }
  }

  /** In every run in which the store does not fail, the table is the index of what the last rebuild read, or the one
      there was before the first; and messages received and rebuilds ended are what the loop has counted. */
  lemma TableIsOfLastRebuild(tree: Listing, table: Table, actions: seq<Action>, s: System)
    requires Run(Initial(tree, table), actions, s) && forall a <- actions :: !a.Fail?
    ensures TableOfLast(false, WakesOf(actions), table, s.table)
    ensures s.task.rebuilds == |Firings(false, WakesOf(actions))|
  {
    SystemRunsLoop(Initial(tree, table), actions, s);
    LoopLaw(Task(false, true, 0, 0), table, WakesOf(actions));
  }

  /* ---------- it settles when changes stop ---------- */

  /** Once changes stop, every way of going on ends within that many steps, and where it ends the last rebuild started
      after the last reported change. */
  lemma {:induction false} SettlesFresh(s: System, actions: seq<Action>, t: System)
    requires Inv(s) && Stamped(s) && Run(s, actions, t) && forall a <- actions :: Internal(a)
    ensures |actions| + Work(t) <= Work(s)
    ensures t.lastReported == s.lastReported && t.tree == s.tree
    ensures (forall a | Internal(a) :: !Enabled(t, a)) ==>
      Quiet(t) && t.kernel == [] && (t.lastReported > 0 ==> t.lastReported < t.lastStart)
    decreases |actions|
  {
    if actions == [] {
      NeverStuck(t);
    } else {
      assert actions[0] in actions;
      StepInv(s, actions[0]);
      StepStamps(s, actions[0]);
      InternalStepsEnd(s, actions[0]);
      SettlesFresh(Step(s, actions[0]), actions[1..], t);
    }
  }
}
