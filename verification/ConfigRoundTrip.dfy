/**
 Configuration files written out and loaded again (crashlog/config.c and
 crashlog/config_handler.c): printing sections and reading the text gives the sections back, and
 a file of event configurations gives back the list of these configurations.
 */
module ConfigRoundTrip {
  import opened Text
  import opened LineReader
  import opened ConfigText
  import Config
  import opened ConfigHandler

  // ----- lines -----

  function LineText(line: Line): string {
    match line
    case Nothing => "\n"
    case Header(name) => "[" + name + "]\n"
    case Pair(key, value) => key + "=" + value + "\n"
  }

  /** A line that survives: it fits one piece of the file, and nothing at its ends would be
      trimmed or taken for something else. */
  predicate Printable(line: Line) {
    && '\n' !in LineText(line)[..|LineText(line)| - 1] && |LineText(line)| <= 124
    && match line
       case Nothing => true
       case Header(_) => true
       case Pair(key, value) =>
         && '=' !in key && key != "" && !IsSpace(key[0]) && key[0] != ';' && key[0] != '#' && key[0] != '['
         && (value != "" ==> !IsSpace(value[|value| - 1]))
  }

  lemma {:induction false} TrimKeeps(s: string)
    requires s != "" && !IsSpace(s[0]) && !IsSpace(s[|s| - 1])
    ensures Trim(s + "\n") == s
  {
    TrimShape(s + "\n", 0, |s| - 1);
  }

  lemma {:induction false} LineBack(line: Line)
    requires Printable(line)
    ensures Parse(Trim(LineText(line))) == line
  {
    match line
    case Nothing =>
    case Header(name) =>
      var s := "[" + name + "]";
      assert LineText(line) == s + "\n";
      TrimKeeps(s);
      assert s[1..|s| - 1] == name;
    case Pair(key, value) =>
      var s := key + "=" + value;
      assert LineText(line) == s + "\n";
      TrimKeeps(s);
      assert s[..|key|] == key && s[|key|] == '=' && s[|key| + 1..] == value;
      IndexOfIs(s, '=', |key|);
  }

  function TextOf(lines: seq<Line>): string {
    if lines == [] then "" else LineText(lines[0]) + TextOf(lines[1..])
  }

  function ApplyAll(secs: seq<Sec>, lines: seq<Line>): seq<Sec>
    decreases |lines|
  {
    if lines == [] then secs else ApplyAll(Apply(secs, lines[0]), lines[1..])
  }

  lemma {:induction false} FirstPiece(line: Line, rest: string)
    requires Printable(line)
    ensures PieceLen(LineText(line) + rest) == |LineText(line)|
  {
    var text := LineText(line) + rest;
    var n := |LineText(line)|;
    assert text[..n - 1] == LineText(line)[..n - 1];
    LineLenAt(text, n - 1);
  }

  /** Reading the lines of a text is applying them. */
  lemma {:induction false} LinesRead(secs: seq<Sec>, lines: seq<Line>)
    requires forall k :: 0 <= k < |lines| ==> Printable(lines[k])
    ensures Sections(secs, TextOf(lines)) == ApplyAll(secs, lines)
    decreases |lines|
  {
    if lines != [] {
      var line, rest := LineText(lines[0]), TextOf(lines[1..]);
      FirstPiece(lines[0], rest);
      assert (line + rest)[..|line|] == line && (line + rest)[|line|..] == rest;
      LineBack(lines[0]);
      LinesRead(Apply(secs, lines[0]), lines[1..]);
    }
  }

  // ----- sections -----

  function PairLines(kvs: seq<Kv>): (r: seq<Line>)
    ensures |r| == |kvs|
  {
    seq(|kvs|, k requires 0 <= k < |kvs| => Pair(kvs[k].key, kvs[k].value))
  }

  function SecLines(sec: Sec): seq<Line> {
    [Header(sec.name)] + PairLines(sec.kvs)
  }

  function FileLines(secs: seq<Sec>): seq<Line> {
    if secs == [] then [] else FileLines(secs[..|secs| - 1]) + SecLines(secs[|secs| - 1])
  }

  lemma {:induction false} ApplyConcat(secs: seq<Sec>, a: seq<Line>, b: seq<Line>)
    ensures ApplyAll(secs, a + b) == ApplyAll(ApplyAll(secs, a), b)
    decreases |a|
  {
    if a == [] {
      assert a + b == b;
    } else {
      assert (a + b)[1..] == a[1..] + b;
      ApplyConcat(Apply(secs, a[0]), a[1..], b);
    }
  }

  lemma {:induction false} PairsApplied(secs: seq<Sec>, name: string, done: seq<Kv>, kvs: seq<Kv>)
    ensures ApplyAll(secs + [Sec(name, done)], PairLines(kvs)) == secs + [Sec(name, done + kvs)]
    decreases |kvs|
  {
    if kvs == [] {
      assert done + kvs == done;
    } else {
      var now := secs + [Sec(name, done)];
      assert PairLines(kvs)[1..] == PairLines(kvs[1..]);
      assert Apply(now, PairLines(kvs)[0]) == secs + [Sec(name, done + [kvs[0]])];
      PairsApplied(secs, name, done + [kvs[0]], kvs[1..]);
      assert done + [kvs[0]] + kvs[1..] == done + kvs;
    }
  }

  lemma {:induction false} SecApplied(secs: seq<Sec>, sec: Sec)
    ensures ApplyAll(secs, SecLines(sec)) == secs + [sec]
  {
    assert SecLines(sec)[1..] == PairLines(sec.kvs);
    PairsApplied(secs, sec.name, [], sec.kvs);
    assert [] + sec.kvs == sec.kvs;
  }

  lemma {:induction false} FileApplied(secs: seq<Sec>)
    ensures ApplyAll([], FileLines(secs)) == secs
  {
    if secs != [] {
      var before, sec := secs[..|secs| - 1], secs[|secs| - 1];
      FileApplied(before);
      ApplyConcat([], FileLines(before), SecLines(sec));
      SecApplied(before, sec);
    }
  }

  predicate PrintableSec(sec: Sec) {
    Printable(Header(sec.name)) && forall k :: 0 <= k < |sec.kvs| ==> Printable(Pair(sec.kvs[k].key, sec.kvs[k].value))
  }

  lemma {:induction false} FileLinesPrintable(secs: seq<Sec>)
    requires forall k :: 0 <= k < |secs| ==> PrintableSec(secs[k])
    ensures forall k :: 0 <= k < |FileLines(secs)| ==> Printable(FileLines(secs)[k])
  {
    hide Printable;
    if secs != [] {
      FileLinesPrintable(secs[..|secs| - 1]);
      assert PrintableSec(secs[|secs| - 1]);
    }
  }

  /** Loading the text of some sections gives these sections. */
  lemma {:induction false} SectionsBack(secs: seq<Sec>)
    requires forall k :: 0 <= k < |secs| ==> PrintableSec(secs[k])
    ensures Sections([], TextOf(FileLines(secs))) == secs
  {
    FileLinesPrintable(secs);
    LinesRead([], FileLines(secs));
    FileApplied(secs);
  }

  // ----- event configurations -----

  /** A configuration as the pairs of a section. */
  function PairsOf(c: Conf): seq<Kv> {
    [Kv("module", "modem"), Kv("eventname", c.eventname), Kv("matching_pattern", c.matching_pattern),
     Kv("type", if c.isDir then "dir" else "file"), Kv("path_linked", c.path_linked),
     Kv("event_class", if c.event_class == 0 then "CRASH" else if c.event_class == 1 then "ERROR" else "INFO")] +
    if c.path.Some? then [Kv("path_trigger", c.path.value)] else []
  }

  predicate Fits(c: Conf) {
    c.event_class < 3 && |c.path_linked| <= 511 && (c.path.Some? ==> |c.path.value| <= 511)
  }

  lemma {:induction false} ValueAtPair(kvs: seq<Kv>, i: nat)
    requires i < |kvs| && forall j :: 0 <= j < i ==> kvs[j].key != kvs[i].key
    ensures Config.Value(kvs, kvs[i].key) == Some(kvs[i].value)
  {
    Config.ValueIs(kvs, kvs[i].key);
    assert Config.IsFirstPair(kvs, kvs[i].key, i);
  }

  /** A section that was written for a configuration describes that configuration. */
  lemma {:induction false} ConfBack(c: Conf)
    requires Fits(c)
    ensures ConfOf(PairsOf(c)) == Some(c)
    ensures forall key :: key in {"module", "eventname", "matching_pattern", "type", "path_linked", "event_class"} ==>
              Config.Value(PairsOf(c), key).Some?
  {
    hide Config.Value;
    var kvs := PairsOf(c);
    forall i: nat | i < |kvs|
      ensures Config.Value(kvs, kvs[i].key) == Some(kvs[i].value)
    {
      KeysDiffer(c, i);
      ValueAtPair(kvs, i);
    }
    assert Config.Value(kvs, kvs[0].key) == Some("modem");
    assert Config.Value(kvs, kvs[1].key) == Some(c.eventname);
    assert Config.Value(kvs, kvs[2].key) == Some(c.matching_pattern);
    assert Config.Value(kvs, kvs[3].key) == Some(kvs[3].value);
    assert Config.Value(kvs, kvs[4].key) == Some(c.path_linked);
    assert Config.Value(kvs, kvs[5].key) == Some(kvs[5].value);
    if c.path.Some? {
      assert Config.Value(kvs, kvs[6].key) == Some(c.path.value);
    } else {
      Config.ValueIs(kvs, "path_trigger");
    }
  }

  lemma {:induction false} KeysDiffer(c: Conf, i: nat)
    requires i < |PairsOf(c)|
    ensures forall j :: 0 <= j < i ==> PairsOf(c)[j].key != PairsOf(c)[i].key
  {
  }

  /** What a section without the optional keys describes. */
  lemma {:induction false} ConfDefaults(kvs: seq<Kv>, eventname: string, pattern: string)
    requires Config.Value(kvs, "module") == Some("modem")
    requires Config.Value(kvs, "eventname") == Some(eventname)
    requires Config.Value(kvs, "matching_pattern") == Some(pattern)
    requires forall i :: 0 <= i < |kvs| ==>
      kvs[i].key !in ["type", "path_trigger", "path_linked", "event_class"]
    ensures ConfOf(kvs) == Some(Conf(eventname, pattern, false, None, "", 0))
  {
    Config.ValueIs(kvs, "type");
    Config.ValueIs(kvs, "path_trigger");
    Config.ValueIs(kvs, "path_linked");
    Config.ValueIs(kvs, "event_class");
  }

  /** A section describes a configuration exactly when it is one of the modem module with an
      event name and a pattern. */
  lemma {:induction false} ConfExactly(kvs: seq<Kv>)
    ensures ConfOf(kvs).Some? <==>
            && Config.Value(kvs, "module") == Some("modem")
            && Config.Value(kvs, "eventname").Some? && Config.Value(kvs, "matching_pattern").Some?
  {
  }

  // ----- a whole file -----

  /** What a file holds: the configuration of an event, a section of another kind, or one of this
      kind without the key that is asked for. */
  datatype Item = Event(title: string, conf: Conf) | Foreign(sec: Sec) | Lacking(title: string, kvs: seq<Kv>)

  function SecOf(base: string, item: Item): Sec {
    match item
    case Event(title, conf) => Sec(base + " \"" + title + "\"", PairsOf(conf))
    case Foreign(sec) => sec
    case Lacking(title, kvs) => Sec(base + " \"" + title + "\"", kvs)
  }

  function SecsOf(base: string, items: seq<Item>): (r: seq<Sec>)
    ensures |r| == |items|
  {
    seq(|items|, k requires 0 <= k < |items| => SecOf(base, items[k]))
  }

  predicate ItemOk(base: string, key: string, item: Item) {
    && PrintableSec(SecOf(base, item))
    && match item
       case Event(_, conf) => Fits(conf)
       case Foreign(sec) => !(base + " \"" <= sec.name)
       case Lacking(_, kvs) => forall i :: 0 <= i < |kvs| ==> kvs[i].key != key
  }

  /** The configurations of the events up to the first section that lacks the key. */
  function ConfsUntil(items: seq<Item>): seq<Conf> {
    if items == [] then []
    else
      match items[0]
      case Event(_, conf) => [conf] + ConfsUntil(items[1..])
      case Foreign(_) => ConfsUntil(items[1..])
      case Lacking(_, _) => []
  }

  lemma {:induction false} ItemsStored(base: string, key: string, items: seq<Item>)
    requires key in {"module", "eventname", "matching_pattern", "type", "path_linked", "event_class"}
    requires |base| <= 124 && forall k :: 0 <= k < |items| ==> ItemOk(base, key, items[k])
    ensures Stored(SecsOf(base, items), Config.Prefix(base), key) == ConfsUntil(items)
    decreases |items|
  {
    hide ConfOf, PairsOf, Config.Value, PrintableSec;
    if items != [] {
      var secs, prefix := SecsOf(base, items), Config.Prefix(base);
      assert secs[1..] == SecsOf(base, items[1..]);
      ItemsStored(base, key, items[1..]);
      var rest := Matches(secs[1..], prefix);
      assert ([secs[0]] + rest)[1..] == rest && [] + rest == rest;
      assert ItemOk(base, key, items[0]);
      match items[0]
      case Event(title, conf) =>
        assert prefix <= secs[0].name;
        ConfBack(conf);
        assert ([secs[0]] + Until(rest, key))[1..] == Until(rest, key);
      case Foreign(sec) =>
      case Lacking(title, kvs) =>
        assert prefix <= secs[0].name;
        Config.ValueIs(kvs, key);
    }
  }

  /** Writing event configurations to a file, between sections of other kinds, and loading it by
      their pattern gives back the list of configurations, up to the first section of the pattern
      that lacks the key. */
  lemma {:induction false} ConfigsBack(base: string, key: string, items: seq<Item>)
    requires key in {"module", "eventname", "matching_pattern", "type", "path_linked", "event_class"}
    requires |base| <= 124 && forall k :: 0 <= k < |items| ==> ItemOk(base, key, items[k])
    ensures Stored(Sections([], TextOf(FileLines(SecsOf(base, items)))), Config.Prefix(base), key) == ConfsUntil(items)
  {
    forall k | 0 <= k < |items|
      ensures PrintableSec(SecsOf(base, items)[k])
    {
      assert ItemOk(base, key, items[k]);
    }
    SectionsBack(SecsOf(base, items));
    ItemsStored(base, key, items);
  }
}
