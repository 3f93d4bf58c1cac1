/**
 The circular buffer of lines shared by cache_file (crashlog/fsutils.c) and by the
 history cache (crashlog/history.c): an array of strings, null where unused, and the
 index of the next slot to write, which wraps at the end of the array.
 */
module Ring {
  import opened Text
  import Modulo

  type Slot = Option<string>

  /** Slots are filled from index 0; the next slot is null until the ring is full. */
  predicate WellFormed(slots: seq<Slot>, next: int) {
    && 0 <= next < |slots|
    && (forall i :: 0 <= i < next ==> slots[i].Some?)
    && (forall i :: next <= i < |slots| ==> slots[i].Some? == slots[next].Some?)
  }

  /** Where the k-th oldest line of the ring is stored. */
  function Position(slots: seq<Slot>, next: int, k: int): (i: int)
    requires WellFormed(slots, next)
    requires 0 <= k < Count(slots, next)
    ensures 0 <= i < |slots| && slots[i].Some?
  {
    if slots[next].None? then k
    else if next + k < |slots| then next + k
    else next + k - |slots|
  }

  function Count(slots: seq<Slot>, next: int): (n: nat)
    requires WellFormed(slots, next)
  {
    if slots[next].None? then next else |slots|
  }

  /** The lines of the ring, oldest first. */
  function Content(slots: seq<Slot>, next: int): (r: seq<string>)
    requires WellFormed(slots, next)
    ensures |r| == Count(slots, next)
    ensures forall k :: 0 <= k < |r| ==> r[k] == slots[Position(slots, next, k)].value
  {
    seq(Count(slots, next), k requires 0 <= k < Count(slots, next) => slots[Position(slots, next, k)].value)
  }

  /** The lines of a ring, oldest first, if it is one. */
  function View(slots: seq<Slot>, next: int): Option<seq<string>> {
    if WellFormed(slots, next) then Some(Content(slots, next)) else None
  }

  lemma {:induction false} CountOf(slots: seq<Slot>, next: int)
    requires View(slots, next).Some?
    ensures 0 <= next < |slots|
    ensures |View(slots, next).value| == if slots[next].Some? then |slots| else next
  {
  }

  function Wrap(next: int, size: int): (r: int)
    requires 0 <= next < size
    ensures 0 <= r < size
    ensures r == if next + 1 == size then 0 else next + 1
  {
    Modulo.ModOnce(next + 1, size);
    (next + 1) % size
  }

  lemma {:induction false} PushWellFormed(slots: seq<Slot>, next: int, line: string)
    requires WellFormed(slots, next)
    ensures WellFormed(slots[next := Some(line)], Wrap(next, |slots|))
    ensures Count(slots[next := Some(line)], Wrap(next, |slots|)) == Min(Count(slots, next) + 1, |slots|)
  {
  }

  /** Writing at `next` and stepping keeps the ring well formed and makes it hold the
      last |slots| lines of what it held followed by the new line. */
  lemma {:induction false} Push(slots: seq<Slot>, next: int, line: string)
    requires WellFormed(slots, next)
    ensures View(slots[next := Some(line)], Wrap(next, |slots|)) ==
            Some(LastN(Content(slots, next) + [line], |slots|))
  {
    var slots', next' := slots[next := Some(line)], Wrap(next, |slots|);
    PushWellFormed(slots, next, line);
    var wanted := LastN(Content(slots, next) + [line], |slots|);
    var after := Content(slots', next');
    forall k | 0 <= k < |after| ensures after[k] == wanted[k] {
      var i := Position(slots', next', k);
      assert after[k] == slots'[i].value;
      var d := Count(slots, next) + 1 - |after|;
      if d + k < Count(slots, next) {
        assert wanted[k] == Content(slots, next)[d + k];
        assert i == Position(slots, next, d + k) && i != next;
      } else {
        assert wanted[k] == line;
        assert i == next;
      }
    }
    assert after == wanted;
  }

  lemma {:induction false} EmptyRing(slots: seq<Slot>)
    requires |slots| > 0 && forall i :: 0 <= i < |slots| ==> slots[i].None?
    ensures View(slots, 0) == Some([])
  {
    assert WellFormed(slots, 0) && Content(slots, 0) == [];
  }

  /** A ring that holds `lines` at the front of the array, as after a reload. */
  lemma {:induction false} FromFront(slots: seq<Slot>, lines: seq<string>)
    requires |lines| <= |slots| && |slots| > 0
    requires forall i :: 0 <= i < |lines| ==> slots[i] == Some(lines[i])
    requires forall i :: |lines| <= i < |slots| ==> slots[i].None?
    ensures View(slots, |lines| % |slots|) == Some(lines)
  {
    Modulo.ModOnce(|lines|, |slots|);
    var next := |lines| % |slots|;
    assert WellFormed(slots, next);
    forall k | 0 <= k < |lines| ensures Content(slots, next)[k] == lines[k] {
      assert Position(slots, next, k) == k;
    }
    assert Content(slots, next) == lines;
  }

  /** A ring whose next slot is the first one, or that is not full, is in order already. */
  lemma {:induction false} InOrder(slots: seq<Slot>, next: int)
    requires WellFormed(slots, next) && (next == 0 || slots[next].None?)
    ensures forall k :: 0 <= k < Count(slots, next) ==> slots[k] == Some(Content(slots, next)[k])
    ensures forall k :: Count(slots, next) <= k < |slots| ==> slots[k].None?
  {
    forall k | 0 <= k < Count(slots, next) ensures slots[k] == Some(Content(slots, next)[k]) {
      assert Position(slots, next, k) == k;
    }
  }

  /** A full ring is put in order by rotating it. */
  lemma {:induction false} Rotated(slots: seq<Slot>, next: int)
    requires WellFormed(slots, next) && slots[next].Some?
    ensures forall k :: 0 <= k < |slots| ==>
      (slots[next..] + slots[..next])[k] == Some(Content(slots, next)[k])
  {
    forall k | 0 <= k < |slots| ensures (slots[next..] + slots[..next])[k] == Some(Content(slots, next)[k]) {
      assert (slots[next..] + slots[..next])[k] == slots[Position(slots, next, k)];
    }
  }

  /** Where each slot of a full ring stands in its content. */
  lemma {:induction false} FullRingAt(slots: seq<Slot>, next: int, index: int)
    requires WellFormed(slots, next) && slots[next].Some? && 0 <= index < |slots|
    ensures slots[index].Some?
    ensures |Content(slots, next)| == |slots|
    ensures Content(slots, next)[if index >= next then index - next else |slots| - next + index] == slots[index].value
  {
    var k := if index >= next then index - next else |slots| - next + index;
    assert Position(slots, next, k) == index;
  }

  /** The content is what the used slots hold. */
  lemma {:induction false} ContentSlots(slots: seq<Slot>, next: int, line: string)
    requires WellFormed(slots, next)
    ensures line in Content(slots, next) <==> Some(line) in slots
  {
    var lines := Content(slots, next);
    if line in lines {
      var k :| 0 <= k < |lines| && lines[k] == line;
      assert slots[Position(slots, next, k)] == Some(line);
    }
    if Some(line) in slots {
      var i :| 0 <= i < |slots| && slots[i] == Some(line);
      if slots[next].Some? {
        FullRingAt(slots, next, i);
      } else {
        assert Position(slots, next, i) == i;
      }
    }
  }

  /** records[next] = line; next = (next + 1) % size */
  method Write(records: array<Slot>, size: int, next: int, line: string, ghost lines: seq<string>)
    returns (next': int)
    requires 0 < size <= records.Length && View(records[..size], next) == Some(lines)
    modifies records
    ensures View(records[..size], next') == Some(LastN(lines + [line], size))
    ensures records[size..] == old(records[size..])
  {
    Push(records[..size], next, line);
    ghost var slots := records[..size];
    records[next] := Some(line);
    assert records[..size] == slots[next := Some(line)];
    next' := Wrap(next, size);
  }
}
