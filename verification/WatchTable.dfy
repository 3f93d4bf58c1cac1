/**
 The table of watched directories (crashlog/inotify_handler.c, lines 114-162, 197-213,
 259-271 and 432-459): several rows may watch one directory, through one descriptor.
 */
module WatchTable {
  import opened Text

  /** The part of a watch_entry that never changes; the pattern may be null. */
  datatype Row = Row(path: string, enabled: bool, pattern: Option<string>)

  /** The first row from `j` on with the path of row `i`. */
  function FirstFrom(rows: seq<Row>, i: nat, j: nat): (r: nat)
    requires j <= i < |rows|
    ensures j <= r <= i && rows[r].path == rows[i].path
    ensures forall k :: j <= k < r ==> rows[k].path != rows[i].path
    decreases i - j
  {
    if rows[j].path == rows[i].path then j else FirstFrom(rows, i, j + 1)
  }

  function First(rows: seq<Row>, i: nat): nat
    requires i < |rows|
  {
    FirstFrom(rows, i, 0)
  }

  /** The type of the row is enabled, and so is that of the first row with its path: that row
      asks for the watch, and the others copy its descriptor. */
  predicate Active(rows: seq<Row>, i: nat)
    requires i < |rows|
  {
    rows[i].enabled && rows[First(rows, i)].enabled
  }

  // ----- the descriptors -----

  /** What inotify_add_watch answers: a positive descriptor, or a negative one and errno. */
  datatype Reply = Reply(wd: int, errno: int)

  predicate Kernel(answers: map<string, Reply>) {
    forall p :: p in answers ==> answers[p].wd != 0 && (answers[p].wd < 0 ==> answers[p].errno != 0)
  }

  predicate Known<T>(rows: seq<Row>, m: map<string, T>) {
    forall i :: 0 <= i < |rows| ==> rows[i].path in m
  }

  function Descriptors(answers: map<string, Reply>): map<string, int> {
    map p | p in answers :: answers[p].wd
  }

  /** The descriptor of a row when each directory has the one that `on` gives. */
  function Wd(rows: seq<Row>, on: map<string, int>, i: nat): int
    requires i < |rows| && Known(rows, on)
  {
    if Active(rows, i) then on[rows[i].path] else 0
  }

  function Wds(rows: seq<Row>, on: map<string, int>): (r: seq<int>)
    requires Known(rows, on)
    ensures |r| == |rows|
  {
    seq(|rows|, i requires 0 <= i < |rows| => Wd(rows, on, i))
  }

  /** errno is kept by the row that asked for the watch. */
  function Errors(rows: seq<Row>, answers: map<string, Reply>): (r: seq<int>)
    requires Known(rows, answers)
    ensures |r| == |rows|
  {
    seq(|rows|, i requires 0 <= i < |rows| =>
      var answer := answers[rows[i].path];
      if rows[i].enabled && First(rows, i) == i && answer.wd < 0 then answer.errno else 0)
  }

  /** A row has an error exactly when it is enabled, is the first with its path, and the kernel
      refused that path. */
  lemma {:induction false} ErrorsExactly(rows: seq<Row>, answers: map<string, Reply>, i: nat)
    requires i < |rows| && Known(rows, answers) && Kernel(answers)
    ensures Errors(rows, answers)[i] != 0 <==>
            rows[i].enabled && IsFirst(rows, i, rows[i].path) && answers[rows[i].path].wd < 0
    ensures Errors(rows, answers)[i] in {0, answers[rows[i].path].errno}
  {
    assert First(rows, i) == i <==> IsFirst(rows, i, rows[i].path);
  }

  /** No directory has descriptor 0, and no two have the same positive one. */
  predicate Distinct(on: map<string, int>) {
    && (forall p :: p in on ==> on[p] != 0)
    && forall p, q :: p in on && q in on && on[p] == on[q] > 0 ==> p == q
  }

  /** Two rows with a descriptor have the same one exactly when they have the same path. */
  lemma {:induction false} SameWdSamePath(rows: seq<Row>, on: map<string, int>, i: nat, j: nat)
    requires i < |rows| && j < |rows| && Known(rows, on) && Distinct(on)
    requires Wd(rows, on, i) > 0 && Wd(rows, on, j) > 0
    ensures Wd(rows, on, i) == Wd(rows, on, j) <==> rows[i].path == rows[j].path
  {
  }

  predicate IsFirst(rows: seq<Row>, k: nat, path: string)
    requires k < |rows|
  {
    rows[k].path == path && forall j :: 0 <= j < k ==> rows[j].path != path
  }

  /** A row whose type is enabled gets the answer for its path if and only if the first row
      with that path is enabled too; it is left without a descriptor otherwise. */
  lemma {:induction false} ShadowedExactly(rows: seq<Row>, on: map<string, int>, i: nat)
    requires i < |rows| && Known(rows, on) && Distinct(on) && rows[i].enabled
    ensures Wd(rows, on, i) == on[rows[i].path] <==>
            forall k :: 0 <= k < |rows| && IsFirst(rows, k, rows[i].path) ==> rows[k].enabled
    ensures Wd(rows, on, i) in {0, on[rows[i].path]}
  {
    var f := First(rows, i);
    assert IsFirst(rows, f, rows[i].path);
    forall k | 0 <= k < |rows| && IsFirst(rows, k, rows[i].path)
      ensures k == f
    {
    }
  }

  // ----- directories that could not be watched -----

  predicate Bad(wd: int, error: int) {
    wd < 0 || error != 0
  }

  /** A bad row that is the first with its path. */
  predicate Reported(rows: seq<Row>, wds: seq<int>, errors: seq<int>, k: nat)
    requires k < |rows| == |wds| == |errors|
  {
    Bad(wds[k], errors[k]) && First(rows, k) == k
  }

  /** The paths of those rows, below `n`. */
  function Missing(rows: seq<Row>, wds: seq<int>, errors: seq<int>, n: nat): (r: set<string>)
    requires n <= |rows| == |wds| == |errors|
    ensures forall k :: 0 <= k < n && Reported(rows, wds, errors, k) ==> rows[k].path in r
    ensures forall p :: p in r ==> exists k :: 0 <= k < n && Reported(rows, wds, errors, k) && rows[k].path == p
  {
    if n == 0 then {} else
      Missing(rows, wds, errors, n - 1) + if Reported(rows, wds, errors, n - 1) then {rows[n - 1].path} else {}
  }

  /** No path is counted twice. */
  lemma {:induction false} MissingStep(rows: seq<Row>, wds: seq<int>, errors: seq<int>, n: nat)
    requires n < |rows| == |wds| == |errors|
    ensures |Missing(rows, wds, errors, n + 1)| ==
            |Missing(rows, wds, errors, n)| + if Reported(rows, wds, errors, n) then 1 else 0
  {
    if Reported(rows, wds, errors, n) {
      assert rows[n].path !in Missing(rows, wds, errors, n);
    }
  }

  /** Right after the initialization those are the paths that the kernel refused, among those
      it was asked for. */
  lemma {:induction false} MissingIsRefused(rows: seq<Row>, answers: map<string, Reply>)
    requires Known(rows, answers) && Kernel(answers)
    ensures var wds := Wds(rows, Descriptors(answers));
            Missing(rows, wds, Errors(rows, answers), |rows|) == set k | 0 <= k < |rows| && wds[k] < 0 :: rows[k].path
  {
    var on := Descriptors(answers);
    var wds, errors := Wds(rows, on), Errors(rows, answers);
    var missing := Missing(rows, wds, errors, |rows|);
    forall k | 0 <= k < |rows|
      ensures wds[k] < 0 ==> rows[k].path in missing
      ensures Reported(rows, wds, errors, k) ==> wds[k] < 0
    {
      var f := First(rows, k);
      FirstOfFirst(rows, k);
      assert wds[f] == Wd(rows, on, f) && wds[k] == Wd(rows, on, k);
      assert wds[k] < 0 ==> Reported(rows, wds, errors, f);
    }
  }

  lemma {:induction false} FirstOfFirst(rows: seq<Row>, i: nat)
    requires i < |rows|
    ensures First(rows, First(rows, i)) == First(rows, i)
  {
  }

  // ----- directories that are deleted or moved -----

  /** receive_inotify_events writes the new descriptor over every copy of the old one. */
  function Replace(wds: seq<int>, wd: int, again: int): (r: seq<int>)
    ensures |r| == |wds|
  {
    seq(|wds|, i requires 0 <= i < |wds| => if wds[i] == wd then again else wds[i])
  }

  /** Installing the watch again is the same as filling the table with the new descriptor. */
  lemma {:induction false} ReplaceIsRefill(rows: seq<Row>, on: map<string, int>, path: string, again: int)
    requires Known(rows, on) && Distinct(on) && path in on && on[path] > 0
    ensures Replace(Wds(rows, on), on[path], again) == Wds(rows, on[path := again])
  {
    var on' := on[path := again];
    forall i | 0 <= i < |rows|
      ensures Replace(Wds(rows, on), on[path], again)[i] == Wds(rows, on')[i]
    {
      assert Wds(rows, on)[i] == Wd(rows, on, i);
    }
  }

  /** The descriptors stay distinct if and only if the new one is not that of another path. */
  lemma {:induction false} DistinctExactly(on: map<string, int>, path: string, again: int)
    requires Distinct(on) && path in on && again > 0
    ensures Distinct(on[path := again]) <==> forall q :: q in on && q != path ==> on[q] != again
  {
    var on' := on[path := again];
    if Distinct(on') {
      forall q | q in on && q != path
        ensures on[q] != again
      {
        assert on'[q] == on[q] && on'[path] == again;
      }
    }
  }

  /** The last row with a descriptor: the one whose directory is created again. */
  function LastRow(wds: seq<int>, wd: int): (r: Option<nat>)
    ensures r.Some? ==> r.value < |wds| && wds[r.value] == wd && forall k :: r.value < k < |wds| ==> wds[k] != wd
    ensures r.None? ==> wd !in wds
  {
    if wds == [] then None
    else if wds[|wds| - 1] == wd then Some(|wds| - 1)
    else LastRow(wds[..|wds| - 1], wd)
  }

  /** A watched directory is deleted or moved, and `again` is what inotify_add_watch answers for
      the directory that the code creates. */
  datatype Lost = Lost(path: string, again: int)

  /** The directory that is created: that of the last row with the descriptor. */
  function Created(rows: seq<Row>, wds: seq<int>, on: map<string, int>, e: Lost): string
    requires e.path in on && |wds| == |rows|
  {
    var row := LastRow(wds, on[e.path]);
    if row.None? then e.path else rows[row.value].path
  }

  /** What the kernel watches afterwards: the watch of the lost directory is removed, and the
      one created has the answer. A negative number means that a path is not watched. */
  function KernelStep(rows: seq<Row>, wds: seq<int>, on: map<string, int>, e: Lost): map<string, int>
    requires e.path in on && |wds| == |rows|
  {
    on[e.path := -1][Created(rows, wds, on, e) := e.again]
  }

  /** What is written in the table: nothing when the watch is refused. */
  function TableStep(wds: seq<int>, on: map<string, int>, e: Lost): (r: seq<int>)
    requires e.path in on
    ensures |r| == |wds|
  {
    if e.again > 0 then Replace(wds, on[e.path], e.again) else wds
  }

  predicate ActivePath(rows: seq<Row>, path: string) {
    exists i :: 0 <= i < |rows| && rows[i].path == path && Active(rows, i)
  }

  /** An event is about a path that is watched and that has an active row; the kernel answers
      with a descriptor that no other watched path has, or refuses. A descriptor whose watch is
      gone may come again. */
  predicate Possible(rows: seq<Row>, on: map<string, int>, e: Lost) {
    && e.path in on && on[e.path] > 0 && ActivePath(rows, e.path) && e.again != 0
    && (e.again > 0 ==> forall q :: q in on && q != e.path ==> on[q] != e.again)
  }

  predicate PossibleRun(rows: seq<Row>, wds: seq<int>, on: map<string, int>, events: seq<Lost>)
    requires |wds| == |rows|
    decreases |events|
  {
    events == [] ||
    (Possible(rows, on, events[0]) &&
     PossibleRun(rows, TableStep(wds, on, events[0]), KernelStep(rows, wds, on, events[0]), events[1..]))
  }

  /** The table and the watches of the kernel after a run. */
  function RunAll(rows: seq<Row>, wds: seq<int>, on: map<string, int>, events: seq<Lost>)
    : (r: (seq<int>, map<string, int>))
    requires |wds| == |rows| && PossibleRun(rows, wds, on, events)
    ensures |r.0| == |rows|
    decreases |events|
  {
    if events == [] then (wds, on) else
      RunAll(rows, TableStep(wds, on, events[0]), KernelStep(rows, wds, on, events[0]), events[1..])
  }

  predicate Refused(events: seq<Lost>) {
    exists k :: 0 <= k < |events| && events[k].again < 0
  }

  /** Row `i` is not active and has no descriptor, or its path is watched and it has the
      descriptor of that path, or its path is not watched. */
  predicate RowInStep(rows: seq<Row>, wds: seq<int>, on: map<string, int>, i: nat)
    requires Known(rows, on) && i < |rows| == |wds|
  {
    if !Active(rows, i) then wds[i] == 0 else on[rows[i].path] > 0 ==> wds[i] == on[rows[i].path]
  }

  /** So it is for all rows, and active rows with one path hold one descriptor. */
  predicate InStep(rows: seq<Row>, wds: seq<int>, on: map<string, int>)
    requires Known(rows, on) && |wds| == |rows|
  {
    && (forall i :: 0 <= i < |rows| ==> RowInStep(rows, wds, on, i))
    && forall i, j ::
         (0 <= i < |rows| && 0 <= j < |rows| && Active(rows, i) && Active(rows, j) && rows[i].path == rows[j].path)
         ==> wds[i] == wds[j]
  }

  /** An active row with a descriptor although its path is not watched. */
  predicate Dead(rows: seq<Row>, wds: seq<int>, on: map<string, int>, i: nat)
    requires Known(rows, on) && i < |rows| == |wds|
  {
    Active(rows, i) && wds[i] > 0 && on[rows[i].path] < 0
  }

  predicate SomeDead(rows: seq<Row>, wds: seq<int>, on: map<string, int>)
    requires Known(rows, on) && |wds| == |rows|
  {
    exists i :: 0 <= i < |rows| && Dead(rows, wds, on, i)
  }

  /** The row that such an event needs is there; it is active. */
  lemma {:induction false} EventHasRow(rows: seq<Row>, wds: seq<int>, on: map<string, int>, e: Lost)
    requires Known(rows, on) && |wds| == |rows| && InStep(rows, wds, on) && Possible(rows, on, e)
    ensures var row := LastRow(wds, on[e.path]);
            row.Some? && Active(rows, row.value) && Created(rows, wds, on, e) == rows[row.value].path
  {
    hide Active;
    var i :| 0 <= i < |rows| && rows[i].path == e.path && Active(rows, i);
    assert RowInStep(rows, wds, on, i) && wds[i] == on[e.path];
    var row := LastRow(wds, on[e.path]);
    assert row.Some?;
    assert RowInStep(rows, wds, on, row.value);
  }

  lemma {:induction false} KernelDistinct(rows: seq<Row>, wds: seq<int>, on: map<string, int>, e: Lost)
    requires Known(rows, on) && Distinct(on) && |wds| == |rows| && Possible(rows, on, e)
    ensures var on' := KernelStep(rows, wds, on, e);
            && Known(rows, on') && Distinct(on')
            && forall p :: p in on && p != e.path && p != Created(rows, wds, on, e) ==> p in on' && on'[p] == on[p]
  {
    hide ActivePath, Created;
  }

  /** An active row after an event. */
  lemma {:induction false} RowStep(rows: seq<Row>, wds: seq<int>, on: map<string, int>, e: Lost, i: nat)
    requires Known(rows, on) && Distinct(on) && |wds| == |rows| && InStep(rows, wds, on) && Possible(rows, on, e)
    requires i < |rows|
    ensures Known(rows, KernelStep(rows, wds, on, e))
    ensures RowInStep(rows, TableStep(wds, on, e), KernelStep(rows, wds, on, e), i)
  {
    hide Active, ActivePath;
    KernelDistinct(rows, wds, on, e);
    EventHasRow(rows, wds, on, e);
    assert RowInStep(rows, wds, on, i);
    var row := LastRow(wds, on[e.path]).value;
    if Active(rows, i) && rows[i].path == rows[row].path {
      assert wds[i] == wds[row];
    }
  }

  lemma {:induction false} StepInStep(rows: seq<Row>, wds: seq<int>, on: map<string, int>, e: Lost)
    requires Known(rows, on) && Distinct(on) && |wds| == |rows| && InStep(rows, wds, on) && Possible(rows, on, e)
    ensures var on' := KernelStep(rows, wds, on, e);
            Known(rows, on') && Distinct(on') && InStep(rows, TableStep(wds, on, e), on')
  {
    hide Active, ActivePath, RowInStep;
    KernelDistinct(rows, wds, on, e);
    forall i | 0 <= i < |rows|
      ensures RowInStep(rows, TableStep(wds, on, e), KernelStep(rows, wds, on, e), i)
    {
      RowStep(rows, wds, on, e, i);
    }
  }

  /** A refusal leaves a dead row, and once there is one there always is. */
  lemma {:induction false} DeadStep(rows: seq<Row>, wds: seq<int>, on: map<string, int>, e: Lost)
    requires Known(rows, on) && Distinct(on) && |wds| == |rows| && InStep(rows, wds, on) && Possible(rows, on, e)
    requires SomeDead(rows, wds, on) || e.again < 0
    ensures Known(rows, KernelStep(rows, wds, on, e))
    ensures SomeDead(rows, TableStep(wds, on, e), KernelStep(rows, wds, on, e))
  {
    hide Active;
    KernelDistinct(rows, wds, on, e);
    EventHasRow(rows, wds, on, e);
    var wds', on' := TableStep(wds, on, e), KernelStep(rows, wds, on, e);
    var created := Created(rows, wds, on, e);
    if e.again < 0 || created != e.path {
      var i :| 0 <= i < |rows| && rows[i].path == e.path && Active(rows, i);
      assert RowInStep(rows, wds, on, i);
      assert Dead(rows, wds', on', i);
    } else {
      var i :| 0 <= i < |rows| && Dead(rows, wds, on, i);
      assert Dead(rows, wds', on', i);
    }
  }

  /** Over any run, refusals included, every row of a path that is watched has the descriptor
      of that path, and the descriptors of the kernel stay distinct. */
  lemma {:induction false} WatchedRowsInStep(rows: seq<Row>, wds: seq<int>, on: map<string, int>, events: seq<Lost>)
    requires Known(rows, on) && Distinct(on) && |wds| == |rows| && InStep(rows, wds, on)
    requires PossibleRun(rows, wds, on, events)
    ensures var (table, now) := RunAll(rows, wds, on, events);
            && Known(rows, now) && Distinct(now) && InStep(rows, table, now)
            && (SomeDead(rows, wds, on) || Refused(events) ==> SomeDead(rows, table, now))
    decreases |events|
  {
    hide Active, ActivePath, KernelStep, TableStep, InStep, SomeDead, Distinct, Known;
    if events != [] {
      var e, rest := events[0], events[1..];
      StepInStep(rows, wds, on, e);
      if SomeDead(rows, wds, on) || e.again < 0 {
        DeadStep(rows, wds, on, e);
      } else if Refused(events) {
        var k :| 0 <= k < |events| && events[k].again < 0;
        assert rest[k - 1].again < 0;
      }
      WatchedRowsInStep(rows, TableStep(wds, on, e), KernelStep(rows, wds, on, e), rest);
    }
  }

  /** With the table of a fresh initialization, the directory created is the one lost. */
  lemma {:induction false} CreatesTheLost(rows: seq<Row>, on: map<string, int>, e: Lost)
    requires Known(rows, on) && Distinct(on) && Possible(rows, on, e)
    ensures Created(rows, Wds(rows, on), on, e) == e.path
    ensures KernelStep(rows, Wds(rows, on), on, e) == on[e.path := e.again]
  {
    hide Active;
    FilledInStep(rows, on);
    EventHasRow(rows, Wds(rows, on), on, e);
    var row := LastRow(Wds(rows, on), on[e.path]).value;
    assert Wds(rows, on)[row] == Wd(rows, on, row);
  }

  lemma {:induction false} NoRefusalFollows(rows: seq<Row>, on: map<string, int>, events: seq<Lost>)
    requires Known(rows, on) && Distinct(on) && PossibleRun(rows, Wds(rows, on), on, events) && !Refused(events)
    ensures var (table, now) := RunAll(rows, Wds(rows, on), on, events);
            Known(rows, now) && table == Wds(rows, now)
    decreases |events|
  {
    hide Active, ActivePath, Wds, Wd;
    if events != [] {
      var e := events[0];
      assert e.again > 0;
      CreatesTheLost(rows, on, e);
      ReplaceIsRefill(rows, on, e.path, e.again);
      DistinctExactly(on, e.path, e.again);
      NoRefusalFollows(rows, on[e.path := e.again], events[1..]);
    }
  }

  lemma {:induction false} FilledInStep(rows: seq<Row>, on: map<string, int>)
    requires Known(rows, on)
    ensures InStep(rows, Wds(rows, on), on)
  {
    hide Active;
    assert forall i :: 0 <= i < |rows| ==> Wds(rows, on)[i] == Wd(rows, on, i);
  }

  /** After any run, the table is the one that a fresh initialization would give for what the
      kernel watches if and only if the kernel refused no watch during the run. */
  lemma {:induction false} TableFollowsKernel(rows: seq<Row>, on: map<string, int>, events: seq<Lost>)
    requires Known(rows, on) && Distinct(on) && PossibleRun(rows, Wds(rows, on), on, events)
    ensures var (table, now) := RunAll(rows, Wds(rows, on), on, events);
            && Known(rows, now) && Distinct(now)
            && (table == Wds(rows, now) <==> !Refused(events))
  {
    hide Active;
    FilledInStep(rows, on);
    WatchedRowsInStep(rows, Wds(rows, on), on, events);
    if Refused(events) {
      var (table, now) := RunAll(rows, Wds(rows, on), on, events);
      var i :| 0 <= i < |rows| && Dead(rows, table, now, i);
      assert Wds(rows, now)[i] == Wd(rows, now, i);
    } else {
      NoRefusalFollows(rows, on, events);
    }
  }

  /** What a refusal can lead to: the kernel gives the descriptor of the lost directory `q` to
      another one, `p`, the rows of both hold it, and when `p` is lost in turn the code creates
      and watches `q` in its place. */
  lemma {:induction false} RefusalSharesDescriptor(p: string, q: string)
    requires p != q
    ensures var rows, on := [Row(p, true, None), Row(q, true, None)], map[p := 1, q := 2];
            var events := [Lost(q, -1), Lost(p, 2)];
            && Known(rows, on) && Wds(rows, on) == [1, 2] && PossibleRun(rows, [1, 2], on, events)
            && RunAll(rows, [1, 2], on, events) == ([2, 2], map[p := 2, q := -1])
            && Created(rows, [2, 2], map[p := 2, q := -1], Lost(p, 3)) == q
  {
    var rows, on := [Row(p, true, None), Row(q, true, None)], map[p := 1, q := 2];
    var first, second := Lost(q, -1), Lost(p, 2);
    assert Active(rows, 0) && rows[0].path == p && Active(rows, 1) && rows[1].path == q;
    assert Wds(rows, on)[0] == 1 && Wds(rows, on)[1] == 2;
    hide Active;
    var mid, last := map[p := 1, q := -1], map[p := 2, q := -1];
    assert [1, 2][..1] == [1];
    assert KernelStep(rows, [1, 2], on, first) == mid;
    assert KernelStep(rows, [1, 2], mid, second) == last;
    assert Replace([1, 2], 1, 2) == [2, 2];
    assert [first, second][1..] == [second] && [second][1..] == [];
    assert Possible(rows, on, first) && Possible(rows, mid, second);
    assert PossibleRun(rows, [2, 2], last, []);
    assert PossibleRun(rows, [1, 2], mid, [second]);
    assert RunAll(rows, [1, 2], mid, [second]) == RunAll(rows, [2, 2], last, []);
  }

  // ----- finding the row of an event -----

  /** A null name asks for a null pattern. */
  predicate NameMatches(row: Row, name: Option<string>) {
    if name.None? then row.pattern.None?
    else row.pattern.Some? && Contains(name.value, row.pattern.value)
  }

  function EntryFrom(rows: seq<Row>, wds: seq<int>, wd: int, name: Option<string>, i: nat): (r: Option<nat>)
    requires i <= |rows| == |wds|
    ensures r.Some? ==> r.value < |rows|
    decreases |rows| - i
  {
    if i == |rows| then None
    else if wds[i] == wd && NameMatches(rows[i], name) then Some(i)
    else EntryFrom(rows, wds, wd, name, i + 1)
  }

  /** A row is one for the event: its descriptor is that of the event, and its pattern occurs in
      the name, or both are missing. */
  ghost predicate RowFor(rows: seq<Row>, wds: seq<int>, wd: int, name: Option<string>, k: nat)
    requires k < |rows| == |wds|
  {
    && wds[k] == wd
    && match name
       case None => rows[k].pattern == None
       case Some(text) =>
         rows[k].pattern.Some? && exists at: nat :: OccursAt(text, rows[k].pattern.value, at)
  }

  lemma {:induction false} RowForIs(rows: seq<Row>, wds: seq<int>, wd: int, name: Option<string>, k: nat)
    requires k < |rows| == |wds|
    ensures RowFor(rows, wds, wd, name, k) <==> wds[k] == wd && NameMatches(rows[k], name)
  {
    if name.Some? && rows[k].pattern.Some? {
      ContainsExactly(name.value, rows[k].pattern.value);
    }
  }

  /** The scan finds the first row that is one for the event. */
  lemma {:induction false} EntryIsFirst(rows: seq<Row>, wds: seq<int>, wd: int, name: Option<string>, i: nat)
    requires i <= |rows| == |wds|
    ensures var r := EntryFrom(rows, wds, wd, name, i);
            && (r.None? <==> forall k :: i <= k < |rows| ==> !RowFor(rows, wds, wd, name, k))
            && (r.Some? ==> i <= r.value && RowFor(rows, wds, wd, name, r.value) &&
                            forall k :: i <= k < r.value ==> !RowFor(rows, wds, wd, name, k))
    decreases |rows| - i
  {
    hide RowFor, NameMatches;
    if i < |rows| {
      EntryIsFirst(rows, wds, wd, name, i + 1);
      RowForIs(rows, wds, wd, name, i);
    }
  }

  /** The first active row from `i` on that watches a path and whose pattern is in the name. */
  function Handler(rows: seq<Row>, path: string, name: Option<string>, i: nat): Option<nat>
    requires i <= |rows|
    decreases |rows| - i
  {
    if i == |rows| then None
    else if rows[i].path == path && Active(rows, i) && NameMatches(rows[i], name) then Some(i)
    else Handler(rows, path, name, i + 1)
  }

  /** An event in a watched directory goes to the first row that watches that directory for
      such a name. */
  lemma {:induction false} EventReachesHandler(rows: seq<Row>, on: map<string, int>, path: string, name: Option<string>,
          i: nat)
    requires i <= |rows| && Known(rows, on) && Distinct(on) && path in on && on[path] > 0
    ensures EntryFrom(rows, Wds(rows, on), on[path], name, i) == Handler(rows, path, name, i)
    decreases |rows| - i
  {
    if i < |rows| {
      EventReachesHandler(rows, on, path, name, i + 1);
      assert Wds(rows, on)[i] == Wd(rows, on, i);
    }
  }

  // ----- the code -----

  class Watcher {
    const rows: seq<Row>
    const wd: array<int>
    const inotify_error: array<int>

    ghost predicate Valid()
      reads this
    {
      wd != inotify_error && wd.Length == inotify_error.Length == |rows|
    }

    constructor (rows: seq<Row>)
      ensures Valid() && fresh(wd) && fresh(inotify_error) && this.rows == rows
      ensures forall i :: 0 <= i < |rows| ==> wd[i] == 0 && inotify_error[i] == 0
    {
      this.rows := rows;
      wd := new int[|rows|](_ => 0);
      inotify_error := new int[|rows|](_ => 0);
    }

    /** Whether an earlier row has the path of row `i`, and which is the first. */
    method FindDuplicate(i: nat) returns (j: nat)
      requires i < |rows|
      ensures j == First(rows, i)
    {
      j := 0;
      while j < i && rows[j].path != rows[i].path
        invariant j <= i && FirstFrom(rows, i, j) == First(rows, i)
      {
        j := j + 1;
      }
    }

    /** init_inotify_handler: `fd` and `answers` are what the kernel returns. */
    method InitInotifyHandler(fd: int, errno: int, answers: map<string, Reply>) returns (res: int)
      requires Valid() && Known(rows, answers) && Kernel(answers) && (fd < 0 ==> errno > 0)
      requires forall i :: 0 <= i < |rows| ==> wd[i] == 0 && inotify_error[i] == 0
      modifies wd, inotify_error
      ensures fd < 0 ==> res == -errno && wd[..] == old(wd[..]) && inotify_error[..] == old(inotify_error[..])
      ensures fd >= 0 ==> res == fd && wd[..] == Wds(rows, Descriptors(answers)) &&
                          inotify_error[..] == Errors(rows, answers)
    {
      if fd < 0 {
        return -errno;
      }
      ghost var wds, errors := Wds(rows, Descriptors(answers)), Errors(rows, answers);
      var i := 0;
      while i < |rows|
        invariant 0 <= i <= |rows|
        invariant wd[..i] == wds[..i] && inotify_error[..i] == errors[..i]
        invariant forall k :: i <= k < |rows| ==> wd[k] == 0 && inotify_error[k] == 0
      {
        if rows[i].enabled {
          var j := FindDuplicate(i);
          FirstOfFirst(rows, i);
          if j < i {
            assert wd[j] == wds[..i][j];
            wd[i] := wd[j];
          } else {
            wd[i] := answers[rows[i].path].wd;
            if wd[i] < 0 {
              inotify_error[i] := answers[rows[i].path].errno;
            }
          }
        }
        assert wd[..i + 1] == wd[..i] + [wd[i]] && wds[..i + 1] == wds[..i] + [wds[i]];
        assert inotify_error[..i + 1] == inotify_error[..i] + [inotify_error[i]];
        i := i + 1;
      }
      return fd;
    }

    /** get_missing_watched_dir_nb */
    method GetMissingWatchedDirNb() returns (res: int)
      requires Valid()
      ensures res == |Missing(rows, wd[..], inotify_error[..], |rows|)|
      ensures res == 0 <==> forall k :: 0 <= k < |rows| && IsFirst(rows, k, rows[k].path) ==>
                                          wd[k] >= 0 && inotify_error[k] == 0
    {
      ghost var wds, errors := wd[..], inotify_error[..];
      res := 0;
      var idx := 0;
      while idx < |rows|
        invariant 0 <= idx <= |rows| && res == |Missing(rows, wds, errors, idx)|
      {
        MissingStep(rows, wds, errors, idx);
        if wd[idx] < 0 || inotify_error[idx] != 0 {
          var j := FindDuplicate(idx);
          if j == idx {
            res := res + 1;
          }
        }
        idx := idx + 1;
      }
    }

    /** get_event_entry: events that carry a name come from directories, whose rows have a
        pattern. */
    method GetEventEntry(event_wd: int, eventname: Option<string>) returns (result: Option<nat>)
      requires Valid()
      requires eventname.Some? ==> forall i :: 0 <= i < |rows| && wd[i] == event_wd ==> rows[i].pattern.Some?
      ensures result == EntryFrom(rows, wd[..], event_wd, eventname, 0)
    {
      var idx := 0;
      while idx < |rows|
        invariant 0 <= idx <= |rows|
        invariant EntryFrom(rows, wd[..], event_wd, eventname, 0) == EntryFrom(rows, wd[..], event_wd, eventname, idx)
      {
        if wd[idx] == event_wd {
          if eventname.None? && rows[idx].pattern.None? {
            return Some(idx);
          }
          if eventname.Some? && Contains(eventname.value, rows[idx].pattern.value) {
            return Some(idx);
          }
        }
        idx := idx + 1;
      }
      return None;
    }

    /** The part of receive_inotify_events for a directory that is deleted or moved: `again` is
        what inotify_add_watch answers for the directory created at `path`. */
    method ReinstallWatch(event_wd: int, again: int) returns (res: int, path: string)
      requires Valid() && event_wd in wd[..] && again != 0
      modifies wd
      ensures var row := LastRow(old(wd[..]), event_wd); row.Some? && path == rows[row.value].path
      ensures again < 0 ==> res == -1 && wd[..] == old(wd[..])
      ensures again > 0 ==> res == 0 && wd[..] == Replace(old(wd[..]), event_wd, again)
    {
      var entry: Option<nat>, idx := None, 0;
      while idx < |rows|
        invariant 0 <= idx <= |rows|
        invariant entry == LastRow(wd[..idx], event_wd)
      {
        assert wd[..idx + 1][..idx] == wd[..idx];
        if wd[idx] == event_wd {
          entry := Some(idx);
        }
        idx := idx + 1;
      }
      assert wd[..idx] == wd[..];
      path := rows[entry.value].path;
      if again < 0 {
        return -1, path;
      }
      idx := 0;
      while idx < |rows|
        invariant 0 <= idx <= |rows|
        invariant forall k :: 0 <= k < idx ==> wd[k] == Replace(old(wd[..]), event_wd, again)[k]
        invariant forall k :: idx <= k < |rows| ==> wd[k] == old(wd[k])
      {
        if wd[idx] == event_wd {
          wd[idx] := again;
        }
        idx := idx + 1;
      }
      return 0, path;
    }
  }
}
