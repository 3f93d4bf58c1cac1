/**
 The table of stacks (backtrace/backtrace.c, lines 57-58, 269-314 and 317-411): the processes
 found in /proc, each followed by its other threads.
 */
module StackTable {
  import opened Text
  import opened Decimal

  const MAX_STACK_LENGTH := 32

  // ----- what /proc holds -----

  /** The lines of a stack file, if it can be read. */
  type File = Option<seq<string>>

  datatype Task = Task(name: string, stack: File)

  /** A directory of /proc; its task directory may be impossible to open. */
  datatype Proc = Proc(name: string, stack: File, tasks: Option<seq<Task>>)

  // ----- one stack -----

  predicate IsUserspace(line: string) {
    "userspace" <= line
  }

  /** Number of lines before the first one that starts with "userspace". */
  function KernelLines(lines: seq<string>): (n: nat)
    ensures n <= |lines| && (n < |lines| ==> IsUserspace(lines[n]))
    ensures forall k :: 0 <= k < n ==> !IsUserspace(lines[k])
  {
    if lines == [] || IsUserspace(lines[0]) then 0 else 1 + KernelLines(lines[1..])
  }

  /** The kernel stack, and the lines of the user stack, whose addresses are kept: those after
      the separator, MAX_STACK_LENGTH at most. */
  datatype Stack = Stack(kernel: string, user: seq<string>)

  function StackOf(lines: seq<string>): Stack {
    var n := KernelLines(lines);
    Stack(Concat(lines[..n]),
          if n == |lines| then [] else lines[n + 1..][..Min(MAX_STACK_LENGTH, |lines| - n - 1)])
  }

  lemma {:induction false} KernelLinesAre(kernel: seq<string>, rest: seq<string>)
    requires forall k :: 0 <= k < |kernel| ==> !("userspace" <= kernel[k])
    requires rest == [] || "userspace" <= rest[0]
    ensures KernelLines(kernel + rest) == |kernel|
  {
    if kernel == [] {
      assert kernel + rest == rest;
    } else {
      assert (kernel + rest)[1..] == kernel[1..] + rest;
      KernelLinesAre(kernel[1..], rest);
    }
  }

  /** A stack file is split at its first line that starts with "userspace": what precedes it is
      the kernel stack, and the first 32 of the lines that follow are the user stack. */
  lemma {:induction false} StackSplit(kernel: seq<string>, separator: string, user: seq<string>)
    requires (forall k :: 0 <= k < |kernel| ==> !("userspace" <= kernel[k])) && "userspace" <= separator
    ensures StackOf(kernel + [separator] + user) == Stack(Concat(kernel), user[..Min(32, |user|)])
    ensures StackOf(kernel) == Stack(Concat(kernel), [])
  {
    var lines := kernel + [separator] + user;
    assert lines == kernel + ([separator] + user);
    KernelLinesAre(kernel, [separator] + user);
    KernelLinesAre(kernel, []);
    assert kernel + [] == kernel && kernel[..|kernel|] == kernel;
    assert lines[..|kernel|] == kernel && lines[|kernel| + 1..] == user;
  }

  // ----- the listing -----

  /** A stack to keep: that of a process, or of a thread of the last process. */
  datatype Item = Item(pid: nat, ppid: nat, isThread: bool, stack: Stack)

  /** Names from 1 to 8: a process number that starts with 9 is left out by the code. */
  predicate Visible(p: Proc) {
    p.name != "" && '0' < p.name[0] < '9'
  }

  predicate Readable(f: File) {
    f.Some? && f.value != []
  }

  predicate IsThreadOf(t: Task, pid: nat) {
    t.name != "." && t.name != ".." && Atoi(t.name) != pid && Readable(t.stack)
  }

  function ThreadItems(t: Task, pid: nat): seq<Item> {
    if IsThreadOf(t, pid) then [Item(Atoi(t.name), pid, true, StackOf(t.stack.value))] else []
  }

  lemma {:induction false} AtoiOfDec(n: nat)
    ensures Atoi(Dec(n)) == n
  {
    DigitsOfDigits(Dec(n));
    ValueOfDec(n);
  }

  lemma {:induction false} DigitsOfDigits(s: string)
    requires AllDigits(s)
    ensures DigitRun(s, |s|) == s
  {
    if s != "" {
      DigitsOfDigits(s[1..]);
      assert s == [s[0]] + s[1..];
    }
  }

  /** A directory of /proc/<pid>/task with the number `n` is listed as a thread, with that number
      and its stack, if it is not that of the main thread and its stack can be read. */
  lemma {:induction false} ThreadIs(n: nat, stack: File, pid: nat)
    ensures ThreadItems(Task(Dec(n), stack), pid) ==
            if n == pid || stack == None || stack == Some([]) then [] else [Item(n, pid, true, StackOf(stack.value))]
    ensures ThreadItems(Task(".", stack), pid) == ThreadItems(Task("..", stack), pid) == []
  {
    AtoiOfDec(n);
  }

  function Threads(tasks: seq<Task>, pid: nat): (r: seq<Item>)
    ensures forall k :: 0 <= k < |r| ==> r[k].isThread && r[k].ppid == pid
  {
    if tasks == [] then [] else
      Threads(tasks[..|tasks| - 1], pid) + ThreadItems(tasks[|tasks| - 1], pid)
  }

  function TasksOf(ids: seq<nat>, stacks: seq<seq<string>>): (r: seq<Task>)
    requires |ids| == |stacks|
    ensures |r| == |ids|
  {
    seq(|ids|, i requires 0 <= i < |ids| => Task(Dec(ids[i]), Some(stacks[i])))
  }

  /** Threads with readable stacks are listed in order. */
  lemma {:induction false} ThreadsAre(ids: seq<nat>, stacks: seq<seq<string>>, pid: nat)
    requires |ids| == |stacks| && pid !in ids && [] !in stacks
    ensures var r := Siblings(Some(TasksOf(ids, stacks)), pid);
            |r| == |ids| && forall i :: 0 <= i < |ids| ==> r[i] == Item(ids[i], pid, true, StackOf(stacks[i]))
  {
    hide StackOf, Dec, ThreadItems;
    if ids != [] {
      var n := |ids| - 1;
      ThreadsAre(ids[..n], stacks[..n], pid);
      assert TasksOf(ids, stacks)[..n] == TasksOf(ids[..n], stacks[..n]);
      ThreadIs(ids[n], Some(stacks[n]), pid);
    }
  }

  function Siblings(tasks: Option<seq<Task>>, pid: nat): (r: seq<Item>)
    ensures forall k :: 0 <= k < |r| ==> r[k].isThread && r[k].ppid == pid
  {
    if tasks.None? then [] else Threads(tasks.value, pid)
  }

  /** A process whose own stack cannot be read is skipped with all its threads. */
  function Listed(p: Proc): (r: seq<Item>)
    ensures r != [] ==> !r[0].isThread && forall k :: 0 < k < |r| ==> r[k].isThread && r[k].ppid == r[0].pid
  {
    if !Visible(p) || !Readable(p.stack) then []
    else
      var pid := Atoi(p.name);
      [Item(pid, 0, false, StackOf(p.stack.value))] + Siblings(p.tasks, pid)
  }

  lemma {:induction false} FirstDigit(n: nat, k: nat)
    requires Pow10(k) <= n < Pow10(k + 1)
    ensures |Dec(n)| > 0 && IsDigit(Dec(n)[0]) && DigitValue(Dec(n)[0]) * Pow10(k) <= n
    ensures n < (DigitValue(Dec(n)[0]) + 1) * Pow10(k)
  {
    if k > 0 {
      FirstDigit(n / 10, k - 1);
      var d, p := DigitValue(Dec(n)[0]), Pow10(k - 1);
      TenTimes(d, p, 0);
      TenTimes(d + 1, p, 0);
    }
  }

  /** A directory of /proc with the number `n` is listed if its stack can be read and the first
      digit of `n` is not 9, first as a process with that number; its threads follow. */
  lemma {:induction false} ProcessIs(n: nat, k: nat, stack: File, tasks: Option<seq<Task>>)
    requires Pow10(k) <= n < Pow10(k + 1)
    ensures Listed(Proc(Dec(n), stack, tasks)) ==
            if stack == None || stack == Some([]) || n >= 9 * Pow10(k) then []
            else [Item(n, 0, false, StackOf(stack.value))] + Siblings(tasks, n)
  {
    hide Siblings, StackOf, Atoi, Dec;
    AtoiOfDec(n);
    FirstDigit(n, k);
    Leading(n, DigitValue(Dec(n)[0]), Pow10(k));
  }

  lemma {:induction false} Leading(n: nat, d: nat, p: nat)
    requires d < 10 && d * p <= n < (d + 1) * p && p <= n
    ensures 0 < d && (d == 9 <==> n >= 9 * p)
  {
    if d < 9 {
      assert (d + 1) * p <= 9 * p;
    }
  }

  /** Other names are not listed. */
  lemma {:induction false} NotListed(name: string, stack: File, tasks: Option<seq<Task>>)
    requires name == "" || !IsDigit(name[0]) || name[0] == '0'
    ensures Listed(Proc(name, stack, tasks)) == []
  {
  }

  function Listing(procs: seq<Proc>): (r: seq<Item>)
    ensures r != [] ==> !r[0].isThread
  {
    if procs == [] then [] else Listing(procs[..|procs| - 1]) + Listed(procs[|procs| - 1])
  }

  /** Processes are listed in the order of their directories. */
  lemma {:induction false} ListingConcat(a: seq<Proc>, b: seq<Proc>)
    ensures Listing(a + b) == Listing(a) + Listing(b)
  {
    if b == [] {
      assert a + b == a;
    } else {
      var n := |b| - 1;
      assert (a + b)[..|a + b| - 1] == a + b[..n];
      ListingConcat(a, b[..n]);
      Assoc(Listing(a), Listing(b[..n]), Listed(b[n]));
    }
  }

  /** What a table of `size` entries keeps of a listing. */
  function Fit(items: seq<Item>, size: nat): seq<Item> {
    items[..Min(|items|, size)]
  }

  // ----- the entries -----

  datatype Entry = Entry(pid: nat, ppid: nat, isThread: bool, childCount: nat, pIndex: int, stack: Stack)

  const EMPTY := Entry(0, 0, false, 0, 0, Stack("", []))

  /** Index of the last process of a listing. */
  function LastProcess(items: seq<Item>): (p: nat)
    requires items != [] && !items[0].isThread
    ensures p < |items| && !items[p].isThread
    ensures forall k :: p < k < |items| ==> items[k].isThread
  {
    if items[|items| - 1].isThread then LastProcess(items[..|items| - 1]) else |items| - 1
  }

  /** A listing starts with a process. */
  predicate Started(items: seq<Item>) {
    items != [] ==> !items[0].isThread
  }

  /** The entries for a listing, written one by one. */
  function Build(items: seq<Item>): (r: seq<Entry>)
    requires Started(items)
    ensures |r| == |items|
  {
    if items == [] then [] else
      var before, it := items[..|items| - 1], items[|items| - 1];
      var r := Build(before);
      if it.isThread then
        var parent := LastProcess(before);
        r[parent := r[parent].(childCount := r[parent].childCount + 1)] +
        [Entry(it.pid, it.ppid, true, 0, parent, it.stack)]
      else r + [Entry(it.pid, it.ppid, false, 0, -1, it.stack)]
  }

  /** The first item at or before `k` that is a process. */
  function ProcessOf(items: seq<Item>, k: nat): (p: nat)
    requires k < |items| && !items[0].isThread
    ensures p <= k && !items[p].isThread && forall j :: p < j <= k ==> items[j].isThread
  {
    if items[k].isThread then ProcessOf(items, k - 1) else k
  }

  lemma {:induction false} ProcessOfPrefix(items: seq<Item>, n: nat, k: nat)
    requires k < n <= |items| && !items[0].isThread
    ensures ProcessOf(items[..n], k) == ProcessOf(items, k)
  {
    if items[k].isThread {
      ProcessOfPrefix(items, n, k - 1);
    }
  }

  /** Threads among the first `n` items whose process is at index `p`. */
  function Children(items: seq<Item>, p: nat, n: nat): nat
    requires n <= |items| && (items != [] ==> !items[0].isThread)
  {
    if n == 0 then 0 else
      Children(items, p, n - 1) + if items[n - 1].isThread && ProcessOf(items, n - 1) == p then 1 else 0
  }

  lemma {:induction false} ChildrenPrefix(items: seq<Item>, p: nat, n: nat, m: nat)
    requires n <= m <= |items| && (items != [] ==> !items[0].isThread)
    ensures Children(items[..m], p, n) == Children(items, p, n)
  {
    if n > 0 {
      ChildrenPrefix(items, p, n - 1, m);
      ProcessOfPrefix(items, m, n - 1);
    }
  }

  /** An entry says what its item does; a thread points to the nearest process before it, and a
      process counts the threads that point to it. */
  lemma {:induction false} EntryIs(items: seq<Item>, k: nat)
    requires k < |items| && !items[0].isThread
    ensures var e := Build(items)[k];
            && e.pid == items[k].pid && e.ppid == items[k].ppid && e.isThread == items[k].isThread
            && e.stack == items[k].stack
            && e.pIndex == (if e.isThread then ProcessOf(items, k) else -1)
            && e.childCount == (if e.isThread then 0 else Children(items, k, |items|))
  {
    var n := |items| - 1;
    var before := items[..n];
    if k < n {
      EntryIs(before, k);
      ProcessOfPrefix(items, n, k);
      ChildrenPrefix(items, k, n, n);
      LastIsProcessOf(items);
    } else {
      NoChildrenYet(items, n, n);
      LastIsProcessOf(items);
    }
  }

  lemma {:induction false} LastIsProcessOf(items: seq<Item>)
    requires items != [] && !items[0].isThread
    ensures var n := |items| - 1;
            items[n].isThread ==> n > 0 && LastProcess(items[..n]) == ProcessOf(items, n)
  {
  }

  lemma {:induction false} NoChildrenYet(items: seq<Item>, p: nat, n: nat)
    requires n <= p < |items| && !items[0].isThread
    ensures Children(items, p, n) == 0
  {
    if n > 0 {
      NoChildrenYet(items, p, n - 1);
    }
  }

  function SumChildren(entries: seq<Entry>): nat {
    if entries == [] then 0 else
      SumChildren(entries[..|entries| - 1]) + entries[|entries| - 1].childCount
  }

  lemma {:induction false} SumAfterUpdate(entries: seq<Entry>, p: nat)
    requires p < |entries|
    ensures SumChildren(entries[p := entries[p].(childCount := entries[p].childCount + 1)]) == SumChildren(entries) + 1
  {
    var after := entries[p := entries[p].(childCount := entries[p].childCount + 1)];
    var n := |entries| - 1;
    if p < n {
      SumAfterUpdate(entries[..n], p);
      assert after[..n] == entries[..n][p := after[p]];
    } else {
      assert after[..n] == entries[..n];
    }
  }

  function Processes(entries: seq<Entry>): nat {
    if entries == [] then 0 else
      Processes(entries[..|entries| - 1]) + if entries[|entries| - 1].isThread then 0 else 1
  }

  lemma {:induction false} ProcessesAfterUpdate(entries: seq<Entry>, p: nat, e: Entry)
    requires p < |entries| && e.isThread == entries[p].isThread
    ensures Processes(entries[p := e]) == Processes(entries)
  {
    var n := |entries| - 1;
    if p < n {
      ProcessesAfterUpdate(entries[..n], p, e);
      assert entries[p := e][..n] == entries[..n][p := e];
    } else {
      assert entries[p := e][..n] == entries[..n];
    }
  }

  /** The processes and the threads that they count make up the whole table. */
  lemma {:induction false} Totals(items: seq<Item>)
    requires Started(items)
    ensures Processes(Build(items)) + SumChildren(Build(items)) == |items|
  {
    if items != [] {
      var before, it := items[..|items| - 1], items[|items| - 1];
      var r, all := Build(before), Build(items);
      Totals(before);
      if it.isThread {
        var p := LastProcess(before);
        var e := r[p].(childCount := r[p].childCount + 1);
        assert all[..|items| - 1] == r[p := e];
        SumAfterUpdate(r, p);
        ProcessesAfterUpdate(r, p, e);
      } else {
        assert all[..|items| - 1] == r;
      }
    }
  }

  lemma {:induction false} BuildThread(before: seq<Entry>, g: nat, items: seq<Item>, it: Item)
    requires items != [] && !items[0].isThread && it.isThread
    requires g == |items| < |before| && before[..g] == Build(items)
    ensures var p := LastProcess(items);
            before[g := Entry(it.pid, it.ppid, true, 0, p, it.stack)]
                  [p := before[p].(childCount := before[p].childCount + 1)][..g + 1] == Build(items + [it])
  {
    assert (items + [it])[..g] == items;
    assert before[LastProcess(items)] == Build(items)[LastProcess(items)];
  }

  lemma {:induction false} BuildProcess(before: seq<Entry>, g: nat, items: seq<Item>, it: Item)
    requires (items != [] ==> !items[0].isThread) && !it.isThread
    requires g == |items| < |before| && before[..g] == Build(items)
    ensures before[g := Entry(it.pid, it.ppid, false, 0, -1, it.stack)][..g + 1] == Build(items + [it])
    ensures LastProcess(items + [it]) == g
  {
    assert (items + [it])[..g] == items;
  }

  lemma {:induction false} LastOfThreads(items: seq<Item>, threads: seq<Item>, size: nat)
    requires items != [] && !items[0].isThread && |items| <= size
    requires forall k :: 0 <= k < |threads| ==> threads[k].isThread
    ensures LastProcess(Fit(items + threads, size)) == LastProcess(items)
  {
    LastProcessIs(Fit(items + threads, size), LastProcess(items));
  }

  lemma {:induction false} LastProcessIs(items: seq<Item>, p: nat)
    requires p < |items| && !items[0].isThread && !items[p].isThread
    requires forall k :: p < k < |items| ==> items[k].isThread
    ensures LastProcess(items) == p
  {
  }

  lemma {:induction false} FitTwice(items: seq<Item>, more: seq<Item>, last: seq<Item>, size: nat)
    ensures Fit(Fit(items + more, size) + last, size) == Fit(items + (more + last), size)
  {
    Assoc(items, more, last);
  }

  lemma {:induction false} FitAgain(items: seq<Item>, more: seq<Item>, size: nat)
    ensures Fit(Fit(items, size) + more, size) == Fit(items + more, size)
  {
  }

  lemma {:induction false} FitNone(items: seq<Item>, size: nat)
    requires |items| <= size
    ensures Fit(items + [], size) == items
  {
    assert items + [] == items;
  }

  lemma {:induction false} FitFull(items: seq<Item>, more: seq<Item>, size: nat)
    requires |items| == size || (more == [] && |items| <= size)
    ensures Fit(items + more, size) == items
  {
  }

  lemma {:induction false} FitOneMore(items: seq<Item>, it: Item, size: nat)
    ensures Fit(items + [it], size) == if |items| < size then items + [it] else Fit(items, size)
  {
  }

  // ----- the code -----

  /** Every process directory is met before the table is full. */
  predicate WithinBounds(procs: seq<Proc>, size: nat) {
    procs == [] ||
    (WithinBounds(procs[..|procs| - 1], size) &&
     (Visible(procs[|procs| - 1]) ==> |Listing(procs[..|procs| - 1])| < size))
  }

  /** One more process directory. */
  lemma {:induction false} BoundsStep(procs: seq<Proc>, size: nat, i: nat)
    requires i < |procs|
    ensures WithinBounds(procs[..i + 1], size) <==>
            WithinBounds(procs[..i], size) && (Visible(procs[i]) ==> |Listing(procs[..i])| < size)
  {
    assert procs[..i + 1][..i] == procs[..i];
  }

  lemma {:induction false} BoundsPrefix(procs: seq<Proc>, size: nat, i: nat)
    requires i <= |procs| && WithinBounds(procs, size)
    ensures WithinBounds(procs[..i], size)
  {
    if i < |procs| {
      BoundsPrefix(procs[..|procs| - 1], size, i);
      assert procs[..|procs| - 1][..i] == procs[..i];
    } else {
      assert procs[..i] == procs;
    }
  }

  lemma {:induction false} WithinBoundsExactly(procs: seq<Proc>, size: nat)
    ensures WithinBounds(procs, size) <==>
            forall q :: 0 <= q < |procs| && Visible(procs[q]) ==> |Listing(procs[..q])| < size
  {
    hide Visible, Listing;
    if procs != [] {
      WithinBoundsExactly(procs[..|procs| - 1], size);
      assert forall q :: 0 <= q < |procs| - 1 ==> procs[..|procs| - 1][..q] == procs[..q];
    }
  }

  /** What the table holds after one more process directory. */
  lemma {:induction false} KeptStep(procs: seq<Proc>, size: nat, i: nat)
    requires i < |procs|
    ensures var kept := Kept(procs, i, size);
            && Started(kept + Listed(procs[i])) && Started(Fit(kept + Listed(procs[i]), size))
            && Fit(kept + Listed(procs[i]), size) == Kept(procs, i + 1, size)
            && |kept| == Min(|Listing(procs[..i])|, size)
  {
    assert procs[..i + 1][..i] == procs[..i];
    FitAgain(Listing(procs[..i]), Listed(procs[i]), size);
  }

  function Kept(procs: seq<Proc>, i: nat, size: nat): (r: seq<Item>)
    requires i <= |procs|
    ensures Started(r)
  {
    Fit(Listing(procs[..i]), size)
  }

  /** The loop of read_single_stack over the lines. */
  method ReadLines(lines: seq<string>) returns (stack: Stack)
    ensures stack == StackOf(lines)
  {
    var kernel, user := "", [];
    var iCount, k := 0, 0;
    ghost var n := KernelLines(lines);
    while k < |lines|
      invariant 0 <= k <= |lines|
      invariant k <= n ==> iCount == 0 && kernel == Concat(lines[..k]) && user == []
      invariant
        k > n ==>
          && iCount >= 2 && kernel == Concat(lines[..n])
          && user == lines[n + 1..][..Min(MAX_STACK_LENGTH, k - n - 1)]
    {
      if IsUserspace(lines[k]) {
        iCount := iCount + 1;
      } else if iCount == 0 {
        assert lines[..k + 1] == lines[..k] + [lines[k]];
        ConcatSnoc(lines[..k], lines[k]);
        kernel := kernel + lines[k];
      }
      if iCount > 0 && |user| < MAX_STACK_LENGTH {
        if iCount != 1 {
          user := user + [lines[k]];
        }
        iCount := iCount + 1;
      }
      k := k + 1;
    }
    assert lines[..|lines|] == lines;
    stack := Stack(kernel, user);
  }

  predicate IsClear(entries: seq<Entry>) {
    forall k :: 0 <= k < |entries| ==> entries[k].(pIndex := 0) == EMPTY
  }

  /** The entries of a table that was never used, but for p_index. */
  lemma {:induction false} ClearIs(entries: seq<Entry>)
    ensures IsClear(entries) <==>
            forall k :: 0 <= k < |entries| ==>
              var e := entries[k];
              e.pid == 0 && e.ppid == 0 && !e.isThread && e.childCount == 0 && e.stack == Stack("", [])
  {
    assert forall k :: 0 <= k < |entries| ==>
        (entries[k].(pIndex := 0) == EMPTY <==>
           (entries[k].pid == 0 && entries[k].ppid == 0 && !entries[k].isThread && entries[k].childCount == 0 &&
            entries[k].stack == Stack("", [])));
  }

  class StackAll {
    const entries: array<Entry>
    var g_index: nat

    /** The entries used; of the others only p_index was ever written. */
    ghost function Used(): Option<seq<Entry>>
      reads this, entries
    {
      if g_index <= entries.Length && IsClear(entries[g_index..]) then Some(entries[..g_index]) else None
    }

    constructor (size: nat)
      ensures fresh(entries) && entries.Length == size && Used() == Some([])
    {
      entries := new Entry[size](_ => EMPTY);
      g_index := 0;
    }

    /** read_single_stack; the addresses stay the lines that hold them. */
    method ReadSingleStack(stack: File, index: nat) returns (access_ok: bool)
      requires index <= entries.Length
      modifies entries
      ensures access_ok <==> index < entries.Length && Readable(stack)
      ensures entries[..] ==
              if access_ok then old(entries[..])[index := old(entries[index]).(stack := StackOf(stack.value))]
              else old(entries[..])
    {
      if index >= entries.Length || stack.None? {
        return false;
      }
      var data := ReadLines(stack.value);
      access_ok := stack.value != [];
      if access_ok {
        entries[index] := entries[index].(stack := data);
      }
    }

    /** The entry for a thread, and the count of its process. */
    method StoreThread(new_tid: nat, pid: nat, parent_index: nat, stack: Stack, ghost items: seq<Item>)
      requires Started(items) && items != [] && parent_index == LastProcess(items)
      requires g_index == |items| < entries.Length && IsClear(entries[g_index + 1..])
      requires entries[..g_index] == Build(items) && entries[g_index].(pIndex := 0, stack := EMPTY.stack) == EMPTY
      requires entries[g_index].stack == stack
      modifies this, entries
      ensures Used() == Some(Build(items + [Item(new_tid, pid, true, stack)]))
    {
      ghost var before, g := entries[..], g_index;
      ghost var p := parent_index;
      entries[g_index] := entries[g_index].(pid := new_tid, ppid := pid, isThread := true, pIndex := parent_index);
      entries[parent_index] := entries[parent_index].(childCount := entries[parent_index].childCount + 1);
      g_index := g_index + 1;
      BuildThread(before, g, items, Item(new_tid, pid, true, stack));
      assert entries[..] == before[g := Entry(new_tid, pid, true, 0, parent_index, stack)]
                                  [p := before[p].(childCount := before[p].childCount + 1)];
      assert entries[g_index..] == before[g_index..];
    }

    /** The entry for a process. */
    method StoreProcess(traced_process: nat, stack: Stack, ghost items: seq<Item>)
      requires Started(items)
      requires g_index == |items| < entries.Length && IsClear(entries[g_index + 1..])
      requires entries[..g_index] == Build(items) && entries[g_index].(stack := EMPTY.stack) == EMPTY.(pIndex := -1)
      requires entries[g_index].stack == stack
      modifies this, entries
      ensures Used() == Some(Build(items + [Item(traced_process, 0, false, stack)]))
    {
      ghost var before, g := entries[..], g_index;
      entries[g_index] := entries[g_index].(pid := traced_process);
      g_index := g_index + 1;
      BuildProcess(before, g, items, Item(traced_process, 0, false, stack));
      assert entries[..] == before[g := Entry(traced_process, 0, false, 0, -1, stack)];
      assert entries[g_index..] == before[g_index..];
    }

    /** The part of dump_sibling_thread_stack for one directory of the process. */
    method DumpThread(pid: nat, parent_index: nat, task: Task, ghost items: seq<Item>)
      requires Started(items) && items != [] && parent_index == LastProcess(items)
      requires Used() == Some(Build(items))
      modifies this, entries
      ensures Used() == Some(Build(Fit(items + ThreadItems(task, pid), entries.Length)))
    {
      FitNone(items, entries.Length);
      if task.name == "." || task.name == ".." {
        return;
      }
      var new_tid := Atoi(task.name);
      if new_tid != pid {
        ghost var before := entries[..];
        var ok := ReadSingleStack(task.stack, g_index);
        if ok {
          assert IsClear(before[g_index..]) && entries[g_index + 1..] == before[g_index..][1..];
          assert entries[..g_index] == before[..g_index] && before[g_index] == before[g_index..][0];
          FitOneMore(items, ThreadItems(task, pid)[0], entries.Length);
          StoreThread(new_tid, pid, parent_index, entries[g_index].stack, items);
        } else {
          FitFull(items, ThreadItems(task, pid), entries.Length);
        }
      }
    }

    /** dump_sibling_thread_stack; the directory of tasks may not open. */
    method DumpSiblingThreadStack(pid: nat, parent_index: nat, tasks: Option<seq<Task>>, ghost items: seq<Item>)
      requires Started(items) && items != [] && parent_index == LastProcess(items)
      requires Used() == Some(Build(items))
      modifies this, entries
      ensures Used() == Some(Build(Fit(items + Siblings(tasks, pid), entries.Length)))
    {
      FitNone(items, entries.Length);
      if tasks.None? {
        return;
      }
      var i := 0;
      ghost var threads: seq<Item> := [];
      while i < |tasks.value|
        invariant 0 <= i <= |tasks.value| && threads == Threads(tasks.value[..i], pid)
        invariant Used() == Some(Build(Fit(items + threads, entries.Length)))
      {
        LastOfThreads(items, threads, entries.Length);
        DumpThread(pid, parent_index, tasks.value[i], Fit(items + threads, entries.Length));
        FitTwice(items, threads, ThreadItems(tasks.value[i], pid), entries.Length);
        assert tasks.value[..i + 1][..i] == tasks.value[..i];
        threads := threads + ThreadItems(tasks.value[i], pid);
        i := i + 1;
      }
      assert tasks.value[..i] == tasks.value;
    }

    /** The part of read_all_stack for one directory of /proc. */
    method ReadProcess(p: Proc, ghost items: seq<Item>)
      requires Started(items) && Used() == Some(Build(items))
      requires Visible(p) ==> |items| < entries.Length
      modifies this, entries
      ensures Used() == Some(Build(Fit(items + Listed(p), entries.Length)))
    {
      hide StackOf, Siblings, Atoi, Build, LastProcess;
      FitNone(items, entries.Length);
      if p.name != "" && p.name[0] > '0' && p.name[0] < '9' {
        var traced_process := Atoi(p.name);
        ghost var before := entries[..];
        entries[g_index] := entries[g_index].(pIndex := -1);
        var ok := ReadSingleStack(p.stack, g_index);
        assert IsClear(before[g_index..]) && entries[g_index + 1..] == before[g_index..][1..];
        assert entries[..g_index] == before[..g_index] && before[g_index] == before[g_index..][0];
        if ok {
          ghost var it := Item(traced_process, 0, false, StackOf(p.stack.value));
          StoreProcess(traced_process, entries[g_index].stack, items);
          LastProcessIs(items + [it], |items|);
          DumpSiblingThreadStack(Atoi(p.name), g_index - 1, p.tasks, items + [it]);
          Assoc(items, [it], Siblings(p.tasks, traced_process));
        }
      }
    }

    /** read_all_stack; /proc may not open. `overrun` is the first process directory that is met
        when the table is full: the code then writes to the entry after the last one, and the
        method stops. */
    method ReadAllStack(procs: Option<seq<Proc>>) returns (res: int, overrun: Option<nat>)
      requires Used() == Some([])
      modifies this, entries
      ensures res == 0
      ensures overrun.None? <==> procs.None? || WithinBounds(procs.value, entries.Length)
      ensures overrun.None? ==>
                Used() == Some(if procs.None? then [] else Build(Fit(Listing(procs.value), entries.Length)))
      ensures overrun.Some? ==>
                && overrun.value < |procs.value| && Visible(procs.value[overrun.value])
                && g_index == entries.Length
                && Used() == Some(Build(Kept(procs.value, overrun.value, entries.Length)))
    {
      if procs.None? {
        return 0, None;
      }
      var i := 0;
      while i < |procs.value|
        invariant 0 <= i <= |procs.value| && WithinBounds(procs.value[..i], entries.Length)
        invariant Used() == Some(Build(Kept(procs.value, i, entries.Length)))
      {
        KeptStep(procs.value, entries.Length, i);
        BoundsStep(procs.value, entries.Length, i);
        if g_index == entries.Length && Visible(procs.value[i]) {
          if WithinBounds(procs.value, entries.Length) {
            BoundsPrefix(procs.value, entries.Length, i + 1);
          }
          return 0, Some(i);
        }
        ReadProcess(procs.value[i], Kept(procs.value, i, entries.Length));
        i := i + 1;
      }
      assert procs.value[..i] == procs.value;
      return 0, None;
    }
  }
}
