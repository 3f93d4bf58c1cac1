/**
 process_log_event (crashlog/trigger.c, lines 77-246): the log files aplog, aplog.1, aplog.2,
 ... are copied by packets of a given depth.
 */
module LogPackets {
  import opened Text
  import opened Modulo

  /** Other modes are refused. */
  datatype Mode = Aplogs | Bz | Other

  /** A log file, by its number, copied to the directory with an index. */
  datatype Copy = Copy(dir: int, log: nat)

  /** What a call does: the copies and the events it raises, in order, how many directories it
      asks for, and its result. */
  datatype Outcome = Outcome(copies: seq<Copy>, events: seq<int>, asked: nat, res: int)

  /** Packets and depth: a trigger file that gives a depth asks for one packet; the properties
      are used otherwise, and negative values count for zero. */
  function Settings(trigger: Option<int>, depth: int, packets: int): (nat, nat) {
    if trigger.Some? && trigger.value >= 0 then (1, trigger.value) else (Max(packets, 0), Max(depth, 0))
  }

  // ----- what is copied, for any set of log files -----

  /** How many files in a row are there from `base` on, `depth` at most. */
  function RunLength(files: set<nat>, base: nat, depth: nat): (n: nat)
    ensures n <= depth && forall k :: base <= k < base + n ==> k in files
    ensures n < depth ==> base + n !in files
    decreases depth
  {
    if depth == 0 || base !in files then 0 else 1 + RunLength(files, base + 1, depth - 1)
  }

  function CopiesTo(dir: int, base: nat, n: nat): (r: seq<Copy>)
    ensures |r| == n
  {
    seq(n, i requires 0 <= i => Copy(dir, base + i))
  }

  /** In APLOG mode each packet that is not empty has its directory and its event. `answers(k)`
      is what find_new_crashlog_dir returns the k-th time. */
  function AplogPackets(files: set<nat>, depth: nat, answers: nat -> int, packets: nat, base: nat, asked: nat)
    : (r: Outcome)
    ensures r.res in {0, -1}
    decreases packets
  {
    var n := RunLength(files, base, depth);
    if packets == 0 then Outcome([], [], asked, 0)
    else if n == 0 then AplogPackets(files, depth, answers, packets - 1, base + depth, asked)
    else if answers(asked) < 0 then Outcome([], [], asked + 1, -1)
    else
      var rest := AplogPackets(files, depth, answers, packets - 1, base + depth, asked + 1);
      rest.(copies := CopiesTo(answers(asked), base, n) + rest.copies, events := [answers(asked)] + rest.events)
  }

  /** In BZ mode all packets go to one directory. */
  function BzCopies(files: set<nat>, depth: nat, dir: int, packets: nat, base: nat): seq<Copy>
    decreases packets
  {
    if packets == 0 then [] else
      CopiesTo(dir, base, RunLength(files, base, depth)) + BzCopies(files, depth, dir, packets - 1, base + depth)
  }

  /** The directory is asked for before the first file of the first packet is copied, or at the
      end when there is no such file. */
  function BzOutcome(files: set<nat>, depth: nat, answers: nat -> int, packets: nat): Outcome {
    var early := packets > 0 && RunLength(files, 0, depth) > 0;
    if early && answers(0) < 0 then Outcome([], [], 1, -1)
    else
      var copies := BzCopies(files, depth, if early then answers(0) else -1, packets, 0);
      if answers(0) < 0 then Outcome(copies, [], 1, -1) else Outcome(copies, [answers(0)], 1, 0)
  }

  function Process(mode: Mode, files: set<nat>, answers: nat -> int, packets: nat, depth: nat): Outcome {
    match mode
    case Aplogs => AplogPackets(files, depth, answers, packets, 0, 0)
    case Bz => BzOutcome(files, depth, answers, packets)
    case Other => Outcome([], [], 0, -1)
  }

  // ----- log files without gaps -----

  /** The files are aplog to aplog.(m-1). */
  ghost predicate FirstFiles(files: set<nat>, m: nat) {
    forall k: nat :: k in files <==> k < m
  }

  lemma {:induction false} RunOfFirstFiles(files: set<nat>, m: nat, base: nat, depth: nat)
    requires FirstFiles(files, m)
    ensures RunLength(files, base, depth) == Min(depth, Max(m - base, 0))
    decreases depth
  {
    if depth > 0 && base < m {
      RunOfFirstFiles(files, m, base + 1, depth - 1);
    }
  }

  /** How many of the next answers are directories, `c` at most. */
  function Granted(answers: nat -> int, asked: nat, c: nat): (g: nat)
    ensures g <= c
    decreases c
  {
    if c == 0 || answers(asked) < 0 then 0 else 1 + Granted(answers, asked + 1, c - 1)
  }

  /** Files from `base` on that packets of a given depth reach. */
  function Reached(m: nat, depth: nat, packets: nat, base: nat): nat {
    Min(packets * depth, Max(m - base, 0))
  }

  /** Packets that `n` files need. */
  function Ceil(n: nat, depth: nat): nat
    requires depth > 0
  {
    (n + depth - 1) / depth
  }

  lemma {:induction false} CeilStep(n: nat, depth: nat)
    requires depth > 0
    ensures Ceil(n, depth) == if n == 0 then 0 else 1 + Ceil(Max(n - depth, 0), depth)
  {
    var q, r := (n + depth - 1) / depth, (n + depth - 1) % depth;
    assert n + depth - 1 == q * depth + r;
    if n == 0 {
      RemainderUnique(depth - 1, depth, 0, depth - 1);
    } else if n <= depth {
      assert 1 * depth == depth;
      RemainderUnique(n + depth - 1, depth, 1, n - 1);
      RemainderUnique(depth - 1, depth, 0, depth - 1);
    } else {
      assert (q - 1) * depth == q * depth - depth;
      RemainderUnique(n - 1, depth, q - 1, r);
    }
  }

  lemma {:induction false} ReachedStep(m: nat, depth: nat, packets: nat, base: nat)
    requires packets > 0
    ensures Reached(m, depth, packets - 1, base + depth) == Max(Reached(m, depth, packets, base) - depth, 0)
    ensures Min(depth, Max(m - base, 0)) == Min(depth, Reached(m, depth, packets, base))
  {
    assert packets * depth == (packets - 1) * depth + depth;
    assert (packets - 1) * depth >= 0;
  }

  /** File `i` goes with packet `i / depth`. */
  function Spread(answers: nat -> int, depth: nat, n: nat, base: nat, asked: nat): (r: seq<Copy>)
    requires depth > 0
    ensures |r| == n
  {
    seq(n, i requires 0 <= i => Copy(answers(asked + i / depth), base + i))
  }

  lemma {:induction false} PacketOf(i: nat, depth: nat)
    requires depth > 0
    ensures i / depth == if i < depth then 0 else 1 + (i - depth) / depth
  {
    if i < depth {
      RemainderUnique(i, depth, 0, i);
    } else {
      var q, r := (i - depth) / depth, (i - depth) % depth;
      assert (q + 1) * depth == q * depth + depth;
      RemainderUnique(i, depth, q + 1, r);
    }
  }

  lemma {:induction false} SpreadStep(answers: nat -> int, depth: nat, n: nat, base: nat, asked: nat)
    requires depth > 0
    ensures Spread(answers, depth, n, base, asked) ==
            CopiesTo(answers(asked), base, Min(n, depth)) +
            Spread(answers, depth, Max(n - depth, 0), base + depth, asked + 1)
  {
    var all, first := Spread(answers, depth, n, base, asked), CopiesTo(answers(asked), base, Min(n, depth));
    var rest := Spread(answers, depth, Max(n - depth, 0), base + depth, asked + 1);
    assert |all| == |first + rest|;
    forall i | 0 <= i < n
      ensures all[i] == (first + rest)[i]
    {
      PacketOf(i, depth);
      if i >= depth {
        assert rest[i - depth] == Copy(answers(asked + 1 + (i - depth) / depth), base + i);
      }
    }
    assert all == first + rest;
  }

  /** What the APLOG mode comes to: `n` files in `c` packets, of which `g` get a directory. */
  function Expected(answers: nat -> int, depth: nat, n: nat, base: nat, asked: nat): Outcome
    requires depth > 0
  {
    var c := Ceil(n, depth);
    var g := Granted(answers, asked, c);
    Outcome(Spread(answers, depth, Min(n, g * depth), base, asked), Directories(answers, asked, g),
            asked + if g < c then g + 1 else g, if g < c then -1 else 0)
  }

  function Directories(answers: nat -> int, asked: nat, g: nat): (r: seq<int>)
    ensures |r| == g
  {
    seq(g, i requires 0 <= i => answers(asked + i))
  }

  lemma {:induction false} GrantedStep(n: nat, g: nat, depth: nat)
    ensures Min(Min(n, (1 + g) * depth), depth) == Min(n, depth)
    ensures Max(Min(n, (1 + g) * depth) - depth, 0) == Min(Max(n - depth, 0), g * depth)
  {
    assert (1 + g) * depth == depth + g * depth && g * depth >= 0;
  }

  lemma {:induction false} ExpectedStep(answers: nat -> int, depth: nat, n: nat, base: nat, asked: nat)
    requires depth > 0
    ensures var next := Expected(answers, depth, Max(n - depth, 0), base + depth, asked + 1);
            Expected(answers, depth, n, base, asked) ==
            if n == 0 then Outcome([], [], asked, 0)
            else if answers(asked) < 0 then Outcome([], [], asked + 1, -1)
            else Outcome(CopiesTo(answers(asked), base, Min(n, depth)) + next.copies, [answers(asked)] + next.events,
                         next.asked, next.res)
  {
    CeilStep(n, depth);
    if n > 0 && answers(asked) >= 0 {
      var left := Max(n - depth, 0);
      var g := Granted(answers, asked + 1, Ceil(left, depth));
      GrantedStep(n, g, depth);
      SpreadStep(answers, depth, Min(n, (1 + g) * depth), base, asked);
      assert Directories(answers, asked, 1 + g) == [answers(asked)] + Directories(answers, asked + 1, g);
    }
  }

  lemma {:induction false} AplogFrom(files: set<nat>, m: nat, depth: nat, answers: nat -> int, packets: nat, base: nat,
          asked: nat)
    requires depth > 0 && FirstFiles(files, m)
    ensures AplogPackets(files, depth, answers, packets, base, asked) ==
            Expected(answers, depth, Reached(m, depth, packets, base), base, asked)
    decreases packets
  {
    ExpectedStep(answers, depth, Reached(m, depth, packets, base), base, asked);
    if packets > 0 {
      RunOfFirstFiles(files, m, base, depth);
      ReachedStep(m, depth, packets, base);
      AplogFrom(files, m, depth, answers, packets - 1, base + depth,
                if RunLength(files, base, depth) == 0 then asked else asked + 1);
      ExpectedStep(answers, depth, 0, base + depth, asked);
    }
  }

  /** APLOG mode: of the first min(m, packets * depth) files, file `i` goes with the packet
      `i / depth`; each packet has one directory and one event. A refused directory ends it. */
  lemma {:induction false} AplogWithoutGaps(files: set<nat>, m: nat, answers: nat -> int, packets: nat, depth: nat)
    requires FirstFiles(files, m)
    ensures var r := Process(Aplogs, files, answers, packets, depth);
            if depth == 0 then r == Outcome([], [], 0, 0)
            else
              var n := Min(m, packets * depth);
              var c := Ceil(n, depth);
              var g := Granted(answers, 0, c);
              && r.copies == Spread(answers, depth, Min(n, g * depth), 0, 0)
              && r.events == Directories(answers, 0, g)
              && r.asked == (if g < c then g + 1 else g)
              && r.res == (if g < c then -1 else 0)
  {
    if depth == 0 {
      AplogDepthZero(files, answers, packets);
    } else {
      AplogFrom(files, m, depth, answers, packets, 0, 0);
    }
  }

  lemma {:induction false} AplogDepthZero(files: set<nat>, answers: nat -> int, packets: nat)
    ensures AplogPackets(files, 0, answers, packets, 0, 0) == Outcome([], [], 0, 0)
  {
    if packets > 0 {
      AplogDepthZero(files, answers, packets - 1);
    }
  }

  lemma {:induction false} BzFrom(files: set<nat>, m: nat, depth: nat, dir: int, packets: nat, base: nat)
    requires FirstFiles(files, m)
    ensures BzCopies(files, depth, dir, packets, base) == CopiesTo(dir, base, Reached(m, depth, packets, base))
    decreases packets
  {
    if packets > 0 {
      RunOfFirstFiles(files, m, base, depth);
      ReachedStep(m, depth, packets, base);
      BzFrom(files, m, depth, dir, packets - 1, base + depth);
    }
  }

  /** BZ mode: the first min(m, packets * depth) files go to the one directory that is asked
      for, and one event is raised, for every depth. */
  lemma {:induction false} BzWithoutGaps(files: set<nat>, m: nat, answers: nat -> int, packets: nat, depth: nat)
    requires FirstFiles(files, m)
    ensures Process(Bz, files, answers, packets, depth) ==
            if answers(0) < 0 then Outcome([], [], 1, -1)
            else Outcome(CopiesTo(answers(0), 0, Min(m, packets * depth)), [answers(0)], 1, 0)
  {
    var early := packets > 0 && RunLength(files, 0, depth) > 0;
    BzFrom(files, m, depth, if early then answers(0) else -1, packets, 0);
    RunOfFirstFiles(files, m, 0, depth);
  }

  // ----- where packets and depth come from -----

  lemma {:induction false} GrantedAll(answers: nat -> int, asked: nat, c: nat)
    requires forall k :: answers(k) >= 0
    ensures Granted(answers, asked, c) == c
    decreases c
  {
    if c > 0 {
      GrantedAll(answers, asked + 1, c - 1);
    }
  }

  /** A depth in the trigger file wins over both properties: one packet of that many files. */
  lemma {:induction false} TriggerOverrides(files: set<nat>, m: nat, answers: nat -> int, d: nat, depth: int,
          packets: int)
    requires FirstFiles(files, m) && forall k :: answers(k) >= 0
    ensures var (p, k) := Settings(Some(d), depth, packets);
            var all := Outcome(CopiesTo(answers(0), 0, Min(m, d)), [answers(0)], 1, 0);
            && Process(Bz, files, answers, p, k) == all
            && Process(Aplogs, files, answers, p, k) == if Min(m, d) == 0 then Outcome([], [], 0, 0) else all
  {
    BzWithoutGaps(files, m, answers, 1, d);
    AplogWithoutGaps(files, m, answers, 1, d);
    if d > 0 {
      var n := Min(m, d);
      CeilStep(n, d);
      CeilStep(0, d);
      GrantedAll(answers, 0, Ceil(n, d));
      SpreadStep(answers, d, n, 0, 0);
      assert CopiesTo(answers(0), 0, n) + Spread(answers, d, 0, d, 1) == CopiesTo(answers(0), 0, n);
      assert n > 0 ==> Directories(answers, 0, 1) == [answers(0)];
    }
  }

  /** Without one, the properties decide, and nothing is copied unless both are positive. */
  lemma {:induction false} PropertiesDecide(files: set<nat>, m: nat, answers: nat -> int, trigger: Option<int>,
          depth: int, packets: int)
    requires FirstFiles(files, m) && (forall k :: answers(k) >= 0) && (trigger.Some? ==> trigger.value < 0)
    ensures var (p, k) := Settings(trigger, depth, packets);
            var aplogs, bz := Process(Aplogs, files, answers, p, k), Process(Bz, files, answers, p, k);
            && bz.events == [answers(0)] && bz.res == aplogs.res == 0
            && if depth <= 0 || packets <= 0 then aplogs == Outcome([], [], 0, 0) && bz.copies == []
               else
                 var n := Min(m, packets * depth);
                 && bz.copies == CopiesTo(answers(0), 0, n)
                 && aplogs.copies == Spread(answers, depth, n, 0, 0)
                 && aplogs.events == Directories(answers, 0, Ceil(n, depth))
  {
    var (p, k) := Settings(trigger, depth, packets);
    BzWithoutGaps(files, m, answers, p, k);
    AplogWithoutGaps(files, m, answers, p, k);
    if depth <= 0 || packets <= 0 {
      NothingCopied(m, answers, p, k);
    } else {
      var n := Min(m, packets * depth);
      GrantedAll(answers, 0, Ceil(n, depth));
      CeilCovers(n, depth);
    }
  }

  lemma {:induction false} NothingCopied(m: nat, answers: nat -> int, p: nat, k: nat)
    requires p == 0 || k == 0
    ensures p * k == 0 && Min(m, p * k) == 0
    ensures k > 0 ==> Ceil(0, k) == 0
  {
    if k > 0 {
      CeilStep(0, k);
    }
  }

  lemma {:induction false} CeilCovers(n: nat, depth: nat)
    requires depth > 0
    ensures n <= Ceil(n, depth) * depth
  {
    var q, r := (n + depth - 1) / depth, (n + depth - 1) % depth;
    assert n + depth - 1 == q * depth + r;
  }

  // ----- any set of log files -----

  function Logs(copies: seq<Copy>): (r: seq<nat>)
    ensures |r| == |copies|
  {
    seq(|copies|, i requires 0 <= i < |copies| => copies[i].log)
  }

  lemma {:induction false} LogsAppend(a: seq<Copy>, b: seq<Copy>)
    ensures Logs(a + b) == Logs(a) + Logs(b)
  {
  }

  lemma {:induction false} LogsOfPacket(dir: int, base: nat, n: nat)
    ensures Logs(CopiesTo(dir, base, n)) == seq(n, i requires 0 <= i => base + i)
    ensures forall k :: k in Logs(CopiesTo(dir, base, n)) <==> base <= k < base + n
  {
    forall k | base <= k < base + n
      ensures k in Logs(CopiesTo(dir, base, n))
    {
      assert Logs(CopiesTo(dir, base, n))[k - base] == k;
    }
  }

  /** All the files of its packet up to file `k` are there. */
  predicate Unbroken(files: set<nat>, depth: nat, base: nat, k: nat)
    requires depth > 0 && base <= k
  {
    forall j :: k - (k - base) % depth <= j <= k ==> j in files
  }

  lemma {:induction false} UnbrokenFirst(files: set<nat>, depth: nat, base: nat, k: nat)
    requires depth > 0 && base <= k < base + depth
    ensures Unbroken(files, depth, base, k) <==> k < base + RunLength(files, base, depth)
  {
    RemainderUnique(k - base, depth, 0, k - base);
  }

  lemma {:induction false} UnbrokenLater(files: set<nat>, depth: nat, base: nat, k: nat)
    requires depth > 0 && base + depth <= k
    ensures Unbroken(files, depth, base, k) <==> Unbroken(files, depth, base + depth, k)
  {
    var i := k - base;
    var q, r := (i - depth) / depth, (i - depth) % depth;
    assert (q + 1) * depth == q * depth + depth;
    RemainderUnique(i, depth, q + 1, r);
  }

  /** packets * depth, packet by packet */
  function Span(packets: nat, depth: nat): nat {
    if packets == 0 then 0 else depth + Span(packets - 1, depth)
  }

  lemma {:induction false} SpanIs(packets: nat, depth: nat)
    ensures Span(packets, depth) == packets * depth
  {
    if packets > 0 {
      SpanIs(packets - 1, depth);
    }
  }

  lemma {:induction false} CopiedFrom(files: set<nat>, depth: nat, dir: int, packets: nat, base: nat, k: nat)
    requires depth > 0
    ensures k in Logs(BzCopies(files, depth, dir, packets, base)) <==>
            base <= k < base + Span(packets, depth) && Unbroken(files, depth, base, k)
    decreases packets
  {
    if packets > 0 {
      var n, rest := RunLength(files, base, depth), BzCopies(files, depth, dir, packets - 1, base + depth);
      LogsOfPacket(dir, base, n);
      LogsAppend(CopiesTo(dir, base, n), rest);
      CopiedFrom(files, depth, dir, packets - 1, base + depth, k);
      if base <= k < base + depth {
        UnbrokenFirst(files, depth, base, k);
      } else if k >= base + depth {
        UnbrokenLater(files, depth, base, k);
      }
    }
  }

  /** A file is copied if and only if it is below packets * depth and no file of its packet is
      missing before it. */
  lemma {:induction false} CopiedExactly(files: set<nat>, depth: nat, dir: int, packets: nat, k: nat)
    requires depth > 0
    ensures k in Logs(BzCopies(files, depth, dir, packets, 0)) <==>
            k < packets * depth && Unbroken(files, depth, 0, k)
  {
    CopiedFrom(files, depth, dir, packets, 0, k);
    SpanIs(packets, depth);
  }

  /** The APLOG mode copies the same files in the same order when no directory is refused. */
  lemma {:induction false} SameLogs(files: set<nat>, depth: nat, answers: nat -> int, dir: int, packets: nat, base: nat,
          asked: nat)
    requires forall k :: answers(k) >= 0
    ensures var r := AplogPackets(files, depth, answers, packets, base, asked);
            r.res == 0 && Logs(r.copies) == Logs(BzCopies(files, depth, dir, packets, base))
    decreases packets
  {
    if packets > 0 {
      var n, rest := RunLength(files, base, depth), BzCopies(files, depth, dir, packets - 1, base + depth);
      var asked' := if n == 0 then asked else asked + 1;
      SameLogs(files, depth, answers, dir, packets - 1, base + depth, asked');
      LogsOfPacket(dir, base, n);
      LogsOfPacket(answers(asked), base, n);
      LogsAppend(CopiesTo(dir, base, n), rest);
      LogsAppend(CopiesTo(answers(asked), base, n),
                 AplogPackets(files, depth, answers, packets - 1, base + depth, asked').copies);
      assert n == 0 ==> CopiesTo(dir, base, n) + rest == rest;
    }
  }

  /** The first file of packet `p`. */
  function Start(base: nat, depth: nat, p: nat): nat {
    base + p * depth
  }

  /** No packet has its first file. */
  predicate NoStart(files: set<nat>, depth: nat, packets: nat, base: nat) {
    forall p: nat :: p < packets ==> Start(base, depth, p) !in files
  }

  lemma {:induction false} StartNext(base: nat, depth: nat, p: nat)
    ensures Start(base, depth, 0) == base
    ensures Start(base + depth, depth, p) == Start(base, depth, p + 1)
  {
  }

  lemma {:induction false} NoStartStep(files: set<nat>, depth: nat, packets: nat, base: nat)
    requires packets > 0
    ensures NoStart(files, depth, packets, base) <==>
            base !in files && NoStart(files, depth, packets - 1, base + depth)
  {
    forall p: nat | p < packets
      ensures Start(base, depth, p) == if p == 0 then base else Start(base + depth, depth, p - 1)
    {
      StartNext(base, depth, if p == 0 then 0 else p - 1);
    }
    if NoStart(files, depth, packets, base) {
      var base' := base + depth;
      forall p: nat | p < packets - 1
        ensures Start(base', depth, p) !in files
      {
        assert Start(base, depth, p + 1) !in files;
      }
      assert Start(base, depth, 0) !in files;
    }
  }

  lemma {:induction false} BzCopiesIn(files: set<nat>, depth: nat, dir: int, packets: nat, base: nat)
    requires depth > 0
    ensures var copies := BzCopies(files, depth, dir, packets, base);
            && (forall i :: 0 <= i < |copies| ==> copies[i].dir == dir)
            && (copies == [] <==> NoStart(files, depth, packets, base))
    decreases packets
  {
    if packets > 0 {
      BzCopiesIn(files, depth, dir, packets - 1, base + depth);
      NoStartStep(files, depth, packets, base);
    }
  }

  /** With gaps the BZ mode may copy files before it has a directory: all the copies go to the
      directory of the event if and only if the first file is there or no packet has its first
      file. */
  lemma {:induction false} BzPlacedExactly(files: set<nat>, answers: nat -> int, packets: nat, depth: nat)
    requires answers(0) >= 0 && packets > 0 && depth > 0
    ensures var r := Process(Bz, files, answers, packets, depth);
            (forall i :: 0 <= i < |r.copies| ==> r.copies[i].dir == answers(0)) <==>
            0 in files || NoStart(files, depth, packets, 0)
  {
    var dir := if RunLength(files, 0, depth) > 0 then answers(0) else -1;
    BzCopiesIn(files, depth, dir, packets, 0);
    var copies := BzCopies(files, depth, dir, packets, 0);
    assert copies != [] ==> copies[0].dir == dir;
  }

  // ----- the code -----

  /** One packet: the loop over the logs. `fresh_` says that the first file needs a directory. */
  method CopyPacket(files: set<nat>, base: nat, depth: nat, fresh_: bool, dir: int, answers: nat -> int, asked: nat)
    returns (res: int, dir': int, asked': nat, copies: seq<Copy>)
    ensures var n := RunLength(files, base, depth);
            if n > 0 && fresh_ && answers(asked) < 0 then res == -1 && copies == [] && asked' == asked + 1
            else
              && res == 0
              && dir' == (if n > 0 && fresh_ then answers(asked) else dir)
              && asked' == (if n > 0 && fresh_ then asked + 1 else asked)
              && copies == CopiesTo(dir', base, n)
  {
    res, dir', asked', copies := 0, dir, asked, [];
    var logidx := 0;
    ghost var n := RunLength(files, base, depth);
    while logidx < depth
      invariant 0 <= logidx <= n && |copies| == logidx
      invariant copies == CopiesTo(dir', base, logidx)
      invariant dir' == (if logidx > 0 && fresh_ then answers(asked) else dir)
      invariant asked' == (if logidx > 0 && fresh_ then asked + 1 else asked)
      invariant logidx > 0 && fresh_ ==> answers(asked) >= 0
    {
      if base + logidx !in files {
        break;
      }
      if fresh_ && logidx == 0 {
        dir', asked' := answers(asked), asked + 1;
        if dir' < 0 {
          res := -1;
          return;
        }
      }
      copies := copies + [Copy(dir', base + logidx)];
      logidx := logidx + 1;
    }
  }

  /** What was done already, and what the rest does. */
  function After(copies: seq<Copy>, events: seq<int>, rest: Outcome): Outcome {
    rest.(copies := copies + rest.copies, events := events + rest.events)
  }

  lemma {:induction false} AplogStep(files: set<nat>, depth: nat, answers: nat -> int, packets: nat, base: nat,
          asked: nat, copies: seq<Copy>, events: seq<int>)
    requires packets > 0
    ensures var n := RunLength(files, base, depth);
            var here := After(copies, events, AplogPackets(files, depth, answers, packets, base, asked));
            if n == 0 then
              here == After(copies + CopiesTo(-1, base, 0), events,
                            AplogPackets(files, depth, answers, packets - 1, base + depth, asked))
            else if answers(asked) < 0 then here == Outcome(copies, events, asked + 1, -1)
            else here == After(copies + CopiesTo(answers(asked), base, n), events + [answers(asked)],
                               AplogPackets(files, depth, answers, packets - 1, base + depth, asked + 1))
  {
    var n := RunLength(files, base, depth);
    if n == 0 {
      assert copies + CopiesTo(-1, base, 0) == copies;
    } else if answers(asked) >= 0 {
      var rest := AplogPackets(files, depth, answers, packets - 1, base + depth, asked + 1);
      Assoc(copies, CopiesTo(answers(asked), base, n), rest.copies);
      Assoc(events, [answers(asked)], rest.events);
    } else {
      assert copies + [] == copies && events + [] == events;
    }
  }

  lemma {:induction false} BzStep(files: set<nat>, depth: nat, dir: int, packets: nat, base: nat, copies: seq<Copy>)
    requires packets > 0
    ensures copies + BzCopies(files, depth, dir, packets, base) ==
            copies + CopiesTo(dir, base, RunLength(files, base, depth)) +
            BzCopies(files, depth, dir, packets - 1, base + depth)
  {
    Assoc(copies, CopiesTo(dir, base, RunLength(files, base, depth)),
          BzCopies(files, depth, dir, packets - 1, base + depth));
  }

  /** What the loop over the packets does in each mode. In BZ mode `dir` is the directory that
      it got, or -1. */
  function Loop(perPacket: bool, files: set<nat>, answers: nat -> int, packets: nat, depth: nat): (Outcome, int) {
    var early := packets > 0 && RunLength(files, 0, depth) > 0;
    if perPacket then (AplogPackets(files, depth, answers, packets, 0, 0), -1)
    else if early && answers(0) < 0 then (Outcome([], [], 1, -1), -1)
    else
      var dir := if early then answers(0) else -1;
      (Outcome(BzCopies(files, depth, dir, packets, 0), [], if early then 1 else 0, 0), dir)
  }

  /** The loop when `left` packets are still to copy. */
  function LoopFrom(perPacket: bool, files: set<nat>, answers: nat -> int, depth: nat, first: bool, left: nat,
                    base: nat, dir: int, done: Outcome): (Outcome, int)
  {
    if perPacket then
      (After(done.copies, done.events, AplogPackets(files, depth, answers, left, base, done.asked)), -1)
    else if first then Loop(false, files, answers, left, depth)
    else (done.(copies := done.copies + BzCopies(files, depth, dir, left, base)), dir)
  }

  /** The loop over the packets. */
  method CopyPackets(newdirperpacket: bool, files: set<nat>, answers: nat -> int, nbPacket: nat, aplogDepth: nat)
    returns (done: Outcome, dir: int)
    ensures (done, if newdirperpacket then -1 else dir) == Loop(newdirperpacket, files, answers, nbPacket, aplogDepth)
  {
    hide Loop;
    done, dir := Outcome([], [], 0, 0), -1;
    ghost var goal := Loop(newdirperpacket, files, answers, nbPacket, aplogDepth);
    var packetidx: nat, base: nat := 0, 0;
    LoopStarts(newdirperpacket, files, answers, aplogDepth, nbPacket);
    while packetidx < nbPacket
      invariant 0 <= packetidx <= nbPacket && done.res == 0
      invariant packetidx == 0 ==> base == 0 && done == Outcome([], [], 0, 0) && dir == -1
      invariant LoopFrom(newdirperpacket, files, answers, aplogDepth, packetidx == 0, nbPacket - packetidx, base,
                         dir, done) == goal
    {
      if newdirperpacket {
        dir := -1;
      }
      var r, asked, packet;
      if newdirperpacket {
        AplogTurn(files, answers, aplogDepth, packetidx == 0, nbPacket - packetidx, base, done);
      } else if packetidx == 0 {
        BzFirstTurn(files, answers, aplogDepth, nbPacket);
      } else {
        BzTurn(files, answers, aplogDepth, nbPacket - packetidx, base, dir, done);
      }
      r, dir, asked, packet :=
        CopyPacket(files, base, aplogDepth, newdirperpacket || packetidx == 0, dir, answers, done.asked);
      if r < 0 {
        done := Outcome(done.copies, done.events, asked, -1);
        return done, -1;
      }
      done := Outcome(done.copies + packet, if newdirperpacket && dir != -1 then done.events + [dir] else done.events,
                      asked, 0);
      base := base + aplogDepth;
      packetidx := packetidx + 1;
    }
    LoopEnds(newdirperpacket, files, answers, aplogDepth, packetidx == 0, base, dir, done);
  }

  /** One packet of `n` files: what is done then, and the directory. */
  function Turn(perPacket: bool, answers: nat -> int, ask: bool, n: nat, base: nat, dir: int, done: Outcome)
    : (Outcome, int)
  {
    if n > 0 && ask && answers(done.asked) < 0 then (Outcome(done.copies, done.events, done.asked + 1, -1), -1)
    else
      var dir' := if n > 0 && ask then answers(done.asked) else dir;
      (Outcome(done.copies + CopiesTo(dir', base, n),
               if perPacket && dir' != -1 then done.events + [dir'] else done.events,
               if n > 0 && ask then done.asked + 1 else done.asked, 0), dir')
  }

  lemma {:induction false} AplogTurnIs(answers: nat -> int, n: nat, base: nat, done: Outcome)
    ensures Turn(true, answers, true, n, base, -1, done) ==
            if n == 0 then (Outcome(done.copies + CopiesTo(-1, base, 0), done.events, done.asked, 0), -1)
            else if answers(done.asked) < 0 then (Outcome(done.copies, done.events, done.asked + 1, -1), -1)
            else (Outcome(done.copies + CopiesTo(answers(done.asked), base, n), done.events + [answers(done.asked)],
                          done.asked + 1, 0), answers(done.asked))
  {
  }

  lemma {:induction false} AplogTurn(files: set<nat>, answers: nat -> int, depth: nat, first: bool, left: nat,
          base: nat, done: Outcome)
    requires left > 0 && done.res == 0
    ensures var (done', dir') := Turn(true, answers, true, RunLength(files, base, depth), base, -1, done);
            LoopFrom(true, files, answers, depth, first, left, base, -1, done) ==
            if done'.res < 0 then (done', -1)
            else LoopFrom(true, files, answers, depth, false, left - 1, base + depth, dir', done')
  {
    AplogStep(files, depth, answers, left, base, done.asked, done.copies, done.events);
    AplogTurnIs(answers, RunLength(files, base, depth), base, done);
  }

  lemma {:induction false} BzFirstTurn(files: set<nat>, answers: nat -> int, depth: nat, left: nat)
    requires left > 0
    ensures var none := Outcome([], [], 0, 0);
            var (done', dir') := Turn(false, answers, true, RunLength(files, 0, depth), 0, -1, none);
            LoopFrom(false, files, answers, depth, true, left, 0, -1, none) ==
            if done'.res < 0 then (done', -1)
            else LoopFrom(false, files, answers, depth, false, left - 1, depth, dir', done')
  {
    var n := RunLength(files, 0, depth);
    var dir' := if n > 0 then answers(0) else -1;
    assert [] + CopiesTo(dir', 0, n) == CopiesTo(dir', 0, n);
  }

  lemma {:induction false} BzTurn(files: set<nat>, answers: nat -> int, depth: nat, left: nat, base: nat, dir: int,
          done: Outcome)
    requires left > 0 && done.res == 0
    ensures var (done', dir') := Turn(false, answers, false, RunLength(files, base, depth), base, dir, done);
            LoopFrom(false, files, answers, depth, false, left, base, dir, done) ==
            LoopFrom(false, files, answers, depth, false, left - 1, base + depth, dir', done')
  {
    BzStep(files, depth, dir, left, base, done.copies);
  }

  lemma {:induction false} LoopStarts(perPacket: bool, files: set<nat>, answers: nat -> int, depth: nat, packets: nat)
    ensures LoopFrom(perPacket, files, answers, depth, true, packets, 0, -1, Outcome([], [], 0, 0)) ==
            Loop(perPacket, files, answers, packets, depth)
  {
    var all := AplogPackets(files, depth, answers, packets, 0, 0);
    assert [] + all.copies == all.copies && [] + all.events == all.events;
  }

  lemma {:induction false} LoopEnds(perPacket: bool, files: set<nat>, answers: nat -> int, depth: nat, first: bool,
          base: nat, dir: int, done: Outcome)
    requires done.res == 0 && (first ==> done == Outcome([], [], 0, 0) && dir == -1)
    ensures LoopFrom(perPacket, files, answers, depth, first, 0, base, dir, done) ==
            (done, if perPacket then -1 else dir)
  {
    assert done.copies + [] == done.copies && done.events + [] == done.events;
  }

  /** process_log_event, as far as the log files, the directories and the events go. */
  method ProcessLogEvent(mode: Mode, trigger: Option<int>, depthProperty: int, packetProperty: int,
                         files: set<nat>, answers: nat -> int)
    returns (res: int, copies: seq<Copy>, events: seq<int>, asked: nat)
    ensures var (packets, depth) := Settings(trigger, depthProperty, packetProperty);
            Outcome(copies, events, asked, res) == Process(mode, files, answers, packets, depth)
    ensures mode == Other ==> res == -1 && copies == [] && events == [] && asked == 0
  {
    if mode == Other {
      return -1, [], [], 0;
    }
    var newdirperpacket := mode == Aplogs;
    var nbPacket, aplogDepth;
    if trigger.Some? && trigger.value >= 0 {
      aplogDepth, nbPacket := trigger.value, 1;
    } else {
      aplogDepth := if depthProperty < 0 then 0 else depthProperty;
      nbPacket := if packetProperty < 0 then 0 else packetProperty;
    }
    var done, dir := CopyPackets(newdirperpacket, files, answers, nbPacket, aplogDepth);
    copies, events, asked := done.copies, done.events, done.asked;
    if done.res < 0 {
      return -1, copies, events, asked;
    }
    if !newdirperpacket {
      if dir == -1 {
        dir, asked := answers(asked), asked + 1;
        if dir < 0 {
          return -1, copies, events, asked;
        }
      }
      events := events + [dir];
    }
    res := 0;
  }
}
