/**
 The keys of the crash logs that wait for the end of a dumpstate (crashlog/dropbox.c, lines
 39-109): two slots used in turn by the function that starts dumpstate and by the one that
 handles the file that dumpstate writes last.
 */
module Dumpstate {
  import opened Text

  const KEY_LENGTH := 20  // SHA1_DIGEST_LENGTH

  /** A key that fits a slot with its terminator. */
  predicate FitsSlot(key: string) {
    |key| <= KEY_LENGTH && NoNul(key)
  }

  /** gcurrent_key, index_prod and index_cons; an empty string is a free slot. */
  datatype Slots = Slots(keys: seq<string>, prod: nat, cons: nat)

  type Ring = r: Slots | |r.keys| == 2 && r.prod < 2 && r.cons < 2 witness Slots(["", ""], 0, 0)

  const INITIAL: Ring := Slots(["", ""], 0, 0)

  /** What surrounds a call: an argument may be null, dumpstate may already run, the watch on
      its directory may be refused; the boot may not be over. */
  datatype Op =
    | Start(dir: bool, key: Option<string>, running: bool, watched: bool)
    | Finish(booted: bool)

  predicate Accepted(op: Op) {
    op.Start? && op.dir && op.key.Some? && !op.running && op.watched
  }

  function Store(r: Ring, key: string): Ring {
    Slots(r.keys[r.prod := key], (r.prod + 1) % 2, r.cons)
  }

  /** The ring after a call, and the keys that the call broadcasts. */
  function Step(r: Ring, op: Op): (Ring, seq<string>) {
    if op.Start? then
      (if Accepted(op) then Store(r, op.key.value) else r, [])
    else if r.keys[r.cons] == "" || !op.booted then (r, [])
    else (Slots(r.keys[r.cons := ""], r.prod, (r.cons + 1) % 2), [r.keys[r.cons]])
  }

  // ----- the ring as a queue -----

  /** The keys that the consumer would broadcast, in its order. */
  function Pending(r: Ring): (q: seq<string>)
    ensures |q| <= 2
  {
    var next, other := r.keys[r.cons], r.keys[1 - r.cons];
    if next == "" then [] else if other == "" then [next] else [next, other]
  }

  /** The producer is where the queue ends. */
  predicate Tidy(r: Ring) {
    && (r.keys[r.cons] == "" ==> r.keys[1 - r.cons] == "")
    && r.prod == (r.cons + |Pending(r)|) % 2
  }

  /** A start that finds room, with a key that can be told from a free slot. */
  predicate InTurn(r: Ring, op: Op) {
    Accepted(op) ==> |Pending(r)| < 2 && op.key.value != ""
  }

  /** One call on a tidy ring works on the queue: a start that finds room appends its key, a
      finish takes the first key, and whatever is refused changes nothing. */
  lemma {:induction false} StepIsQueue(r: Ring, op: Op)
    requires Tidy(r) && InTurn(r, op)
    ensures var (after, sent) := Step(r, op);
            && Tidy(after)
            && sent + Pending(after) == Pending(r) + (if Accepted(op) then [op.key.value] else [])
            && (!Accepted(op) && sent == [] ==> after == r)
  {
    var (after, sent) := Step(r, op);
    if sent != [] {
      assert sent + Pending(after) == Pending(r);
    }
  }

  // ----- runs -----

  /** The ring after a run, and all the keys that were broadcast. */
  function Run(r: Ring, ops: seq<Op>): (Ring, seq<string>)
    decreases |ops|
  {
    if ops == [] then (r, []) else
      var (mid, sent) := Step(r, ops[0]);
      var (after, later) := Run(mid, ops[1..]);
      (after, sent + later)
  }

  /** The keys of the starts that were accepted. */
  function Started(ops: seq<Op>): seq<string> {
    if ops == [] then [] else (if Accepted(ops[0]) then [ops[0].key.value] else []) + Started(ops[1..])
  }

  /** Every start that is accepted finds fewer than two keys pending. */
  predicate Orderly(r: Ring, ops: seq<Op>)
    decreases |ops|
  {
    ops == [] || (InTurn(r, ops[0]) && Orderly(Step(r, ops[0]).0, ops[1..]))
  }

  lemma {:induction false} OrderlyRun(r: Ring, ops: seq<Op>)
    requires Tidy(r) && Orderly(r, ops)
    ensures var (after, sent) := Run(r, ops);
            Tidy(after) && sent + Pending(after) == Pending(r) + Started(ops)
    decreases |ops|
  {
    if ops != [] {
      var (mid, sent) := Step(r, ops[0]);
      var (after, later) := Run(mid, ops[1..]);
      var new_ := if Accepted(ops[0]) then [ops[0].key.value] else [];
      StepIsQueue(r, ops[0]);
      OrderlyRun(mid, ops[1..]);
      Assoc(sent, later, Pending(after));
      Assoc(sent, Pending(mid), Started(ops[1..]));
      Assoc(Pending(r), new_, Started(ops[1..]));
    }
  }

  /** Slots in use, whether or not the consumer can see them. */
  function Used(r: Ring): nat {
    (if r.keys[0] == "" then 0 else 1) + (if r.keys[1] == "" then 0 else 1)
  }

  /** Keys are only ever moved out or lost. */
  lemma {:induction false} RunBound(r: Ring, ops: seq<Op>)
    ensures |Run(r, ops).1| + Used(Run(r, ops).0) <= Used(r) + |Started(ops)|
    decreases |ops|
  {
    if ops != [] {
      RunBound(Step(r, ops[0]).0, ops[1..]);
    }
  }

  /** A start out of turn loses a key for good. */
  lemma {:induction false} DisorderLoses(r: Ring, ops: seq<Op>)
    requires Tidy(r) && !Orderly(r, ops)
    ensures |Run(r, ops).1| + Used(Run(r, ops).0) < Used(r) + |Started(ops)|
    decreases |ops|
  {
    var mid := Step(r, ops[0]).0;
    if InTurn(r, ops[0]) {
      StepIsQueue(r, ops[0]);
      DisorderLoses(mid, ops[1..]);
    } else {
      RunBound(mid, ops[1..]);
    }
  }

  /** Over any run from the initial state, the keys that were started are those that were
      broadcast, in order, followed by those still pending, if and only if each start that was
      accepted found fewer than two keys pending. */
  lemma {:induction false} RunExact(ops: seq<Op>)
    ensures var (after, sent) := Run(INITIAL, ops);
            Started(ops) == sent + Pending(after) <==> Orderly(INITIAL, ops)
  {
    if Orderly(INITIAL, ops) {
      OrderlyRun(INITIAL, ops);
    } else {
      DisorderLoses(INITIAL, ops);
    }
  }

  /** In such a run the broadcasts are a prefix of the starts, at most two behind. */
  lemma {:induction false} BroadcastsInOrder(ops: seq<Op>)
    requires Orderly(INITIAL, ops)
    ensures Run(INITIAL, ops).1 <= Started(ops) && |Started(ops)| <= |Run(INITIAL, ops).1| + 2
  {
    OrderlyRun(INITIAL, ops);
    var (after, sent) := Run(INITIAL, ops);
    assert Started(ops) == sent + Pending(after);
  }

  lemma {:induction false} RunCons(r: Ring, op: Op, ops: seq<Op>)
    ensures Run(r, [op] + ops) == (Run(Step(r, op).0, ops).0, Step(r, op).1 + Run(Step(r, op).0, ops).1)
  {
    assert ([op] + ops)[1..] == ops;
  }

  /** Three starts in a row: the first key is never broadcast, and the last comes first. */
  lemma {:induction false} ThirdStartOverwrites(a: string, b: string, c: string)
    requires a != "" && b != "" && c != ""
    ensures var start, done := (k: string) => Start(true, Some(k), false, true), Finish(true);
            Run(INITIAL, [start(a)] + ([start(b)] + ([start(c)] + ([done] + ([done] + [done]))))).1 == [c, b]
  {
    var start, done := (k: string) => Start(true, Some(k), false, true), Finish(true);
    assert ["", ""][0 := a] == [a, ""] && [a, ""][1 := b] == [a, b] && [a, b][0 := c] == [c, b];
    assert [c, b][0 := ""] == ["", b] && ["", b][1 := ""] == ["", ""];
    RunCons(INITIAL, start(a), [start(b)] + ([start(c)] + ([done] + ([done] + [done]))));
    RunCons(Slots([a, ""], 1, 0), start(b), [start(c)] + ([done] + ([done] + [done])));
    RunCons(Slots([a, b], 0, 0), start(c), [done] + ([done] + [done]));
    RunCons(Slots([c, b], 1, 0), done, [done] + [done]);
    RunCons(Slots(["", b], 1, 1), done, [done]);
    assert [done] + [] == [done];
    RunCons(Slots(["", ""], 1, 0), done, []);
  }

  // ----- the code -----

  class DropboxKeys {
    const gcurrent_key: array<string>
    var index_prod: nat
    var index_cons: nat
    var broadcast: seq<string>  // event identifiers sent to the crash report application

    ghost predicate Valid()
      reads this, gcurrent_key
    {
      gcurrent_key.Length == 2 && index_prod < 2 && index_cons < 2
    }

    ghost function State(): Ring
      requires Valid()
      reads this, gcurrent_key
    {
      Slots(gcurrent_key[..], index_prod, index_cons)
    }

    constructor ()
      ensures Valid() && fresh(gcurrent_key) && State() == INITIAL && broadcast == []
    {
      gcurrent_key := new string[2](_ => "");
      index_prod, index_cons, broadcast := 0, 0, [];
      new;
      assert gcurrent_key[..] == ["", ""];
    }

    /** start_dumpstate_srv */
    method StartDumpstateSrv(crash_dir: bool, key: Option<string>, system_state: string, watch: int) returns (res: int)
      requires Valid() && (key.Some? ==> FitsSlot(key.value))
      modifies this, gcurrent_key
      ensures Valid() && broadcast == old(broadcast)
      ensures State() == Step(old(State()), Start(crash_dir, key, system_state == "running", watch >= 0)).0
      ensures res == 1 <==> crash_dir && key.Some? && system_state != "running" && watch >= 0
      ensures res == 1 ==> gcurrent_key[..] == old(gcurrent_key[..])[old(index_prod) := key.value]
      ensures res != 1 ==> State() == old(State())
      ensures res == -1 <==> crash_dir && key.Some? && system_state != "running" && watch < 0
      ensures res in {-1, 0, 1}
    {
      if !crash_dir || key.None? {
        return 0;
      }
      if system_state == "running" {
        return 0;
      }
      if watch < 0 {
        return -1;
      }
      gcurrent_key[index_prod] := key.value;
      index_prod := (index_prod + 1) % 2;
      return 1;
    }

    /** finalize_dropbox_pending_event */
    method FinalizeDropboxPendingEvent(boot_state: string) returns (res: int)
      requires Valid()
      modifies this, gcurrent_key
      ensures Valid()
      ensures var (after, sent) := Step(old(State()), Finish(boot_state == "1"));
              State() == after && broadcast == old(broadcast) + sent && res == if sent == [] then -1 else 0
      ensures res == 0 <==> old(gcurrent_key[index_cons]) != "" && boot_state == "1"
      ensures res == 0 ==> broadcast == old(broadcast) + [old(gcurrent_key[index_cons])]
    {
      if gcurrent_key[index_cons] == "" {
        return -1;
      }
      if boot_state != "1" {
        return -1;
      }
      broadcast := broadcast + [gcurrent_key[index_cons]];
      gcurrent_key[index_cons] := "";
      index_cons := (index_cons + 1) % 2;
      return 0;
    }
  }
}
