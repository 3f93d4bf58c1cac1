/**
 load_config_by_pattern and store_config (crashlog/config_handler.c): the sections of a
 configuration file that describe modem events, turned into a list of event configurations.
 */
module ConfigHandler {
  import opened Text
  import opened ConfigText
  import opened Config

  const PATHMAX := 512

  /** struct config: `path` is not initialized when the file does not give it. */
  datatype Conf = Conf(eventname: string, matching_pattern: string, isDir: bool, path: Option<string>,
                       path_linked: string, event_class: nat)

  function ValueOr(kvs: seq<Kv>, key: string, default: string): string {
    if Config.Value(kvs, key).Some? then Config.Value(kvs, key).value else default
  }

  /** snprintf into a path buffer */
  function CutPath(s: string): string {
    if |s| <= PATHMAX - 1 then s else s[..PATHMAX - 1]
  }

  /** At most 511 characters of a path are kept. */
  lemma {:induction false} CutPathIs(s: string)
    ensures CutPath(s) <= s && |CutPath(s)| == Min(|s|, 511)
  {
  }

  /** The configuration that a section describes, if it is one that is supported. */
  function ConfOf(kvs: seq<Kv>): Option<Conf> {
    var eventname, pattern := Config.Value(kvs, "eventname"), Config.Value(kvs, "matching_pattern");
    if ValueOr(kvs, "module", "UNDEFINED") != "modem" || eventname.None? || pattern.None? then None
    else
      var path, linked := Config.Value(kvs, "path_trigger"), Config.Value(kvs, "path_linked");
      var class_ := ValueOr(kvs, "event_class", "CRASH");
      Some(Conf(eventname.value, pattern.value, ValueOr(kvs, "type", "file") == "dir",
                if path.None? then None else Some(CutPath(path.value)),
                if linked.None? then "" else CutPath(linked.value),
                if class_ == "ERROR" then 1 else if class_ == "INFO" then 2 else 0))
  }

  function ConfsOf(kvs: seq<Kv>): seq<Conf> {
    if ConfOf(kvs).Some? then [ConfOf(kvs).value] else []
  }

  // ----- what is stored -----

  /** The sections whose name starts with a prefix, in file order. */
  function Matches(secs: seq<Sec>, prefix: string): seq<Sec> {
    if secs == [] then [] else (if prefix <= secs[0].name then [secs[0]] else []) + Matches(secs[1..], prefix)
  }

  /** Those before the first one that lacks the key. */
  function Until(secs: seq<Sec>, key: string): seq<Sec> {
    if secs == [] || Config.Value(secs[0].kvs, key).None? then [] else [secs[0]] + Until(secs[1..], key)
  }

  function AllConfs(secs: seq<Sec>): seq<Conf> {
    if secs == [] then [] else ConfsOf(secs[0].kvs) + AllConfs(secs[1..])
  }

  /** The configurations of the matching sections, up to the first one that lacks the key. */
  function Stored(secs: seq<Sec>, prefix: string, key: string): seq<Conf> {
    AllConfs(Until(Matches(secs, prefix), key))
  }

  /** Sections whose names may have been trimmed. */
  predicate SameButTrimmed(a: seq<Sec>, b: seq<Sec>) {
    && |a| == |b|
    && forall k :: 0 <= k < |a| ==> b[k].kvs == a[k].kvs && (b[k].name == a[k].name || b[k].name == Trim(a[k].name))
  }

  // ----- the walk of the loop, with the names that it trims in place -----

  function TrimSec(sec: Sec): Sec {
    Sec(Trim(sec.name), sec.kvs)
  }

  /** The sections that the loop leaves, and what it stores. */
  function Walk(secs: seq<Sec>, prefix: string, key: string): (r: (seq<Sec>, seq<Conf>))
    ensures |r.0| == |secs|
  {
    if secs == [] then ([], [])
    else if !(prefix <= secs[0].name) then
      var r := Walk(secs[1..], prefix, key);
      ([secs[0]] + r.0, r.1)
    else if Config.Value(secs[0].kvs, key).None? then
      ([TrimSec(secs[0])] + secs[1..], [])
    else
      var r := Walk(secs[1..], prefix, key);
      ([TrimSec(secs[0])] + r.0, ConfsOf(secs[0].kvs) + r.1)
  }

  lemma {:induction false} WalkStores(secs: seq<Sec>, prefix: string, key: string)
    ensures Walk(secs, prefix, key).1 == Stored(secs, prefix, key)
  {
    if secs != [] {
      WalkStores(secs[1..], prefix, key);
      var m := Matches(secs[1..], prefix);
      if prefix <= secs[0].name {
        assert ([secs[0]] + m)[1..] == m;
        if Config.Value(secs[0].kvs, key).Some? {
          assert ([secs[0]] + Until(m, key))[1..] == Until(m, key);
        }
      } else {
        assert [] + m == m;
      }
    }
  }

  lemma {:induction false} WalkTrims(secs: seq<Sec>, prefix: string, key: string)
    ensures SameButTrimmed(secs, Walk(secs, prefix, key).0)
  {
    if secs != [] {
      WalkTrims(secs[1..], prefix, key);
    }
  }

  /** Where the walk over `secs` stands when its next match is looked for from `i` on. */
  function MatchFrom(secs: seq<Sec>, prefix: string, i: nat): (p: nat)
    requires i <= |secs|
    ensures i <= p <= |secs|
  {
    if NextMatch(secs, prefix, i).None? then |secs| else NextMatch(secs, prefix, i).value
  }

  /** The next match as a position of the cursor. */
  function Position(secs: seq<Sec>, prefix: string, i: nat): Option<nat>
    requires i <= |secs|
  {
    var p := MatchFrom(secs, prefix, i);
    if p < |secs| then Some(p) else None
  }

  /** Skipping to the next match skips nothing of the walk. */
  lemma {:induction false} WalkJump(secs: seq<Sec>, prefix: string, key: string, i: nat)
    requires i <= |secs|
    ensures var p := MatchFrom(secs, prefix, i);
            && secs[..p] + Walk(secs[p..], prefix, key).0 == secs[..i] + Walk(secs[i..], prefix, key).0
            && Walk(secs[p..], prefix, key).1 == Walk(secs[i..], prefix, key).1
    decreases |secs| - i
  {
    if i < |secs| && !(prefix <= secs[i].name) {
      WalkJump(secs, prefix, key, i + 1);
      assert secs[i..][1..] == secs[i + 1..];
      assert secs[..i] + [secs[i]] == secs[..i + 1];
      Assoc(secs[..i], [secs[i]], Walk(secs[i + 1..], prefix, key).0);
    }
  }

  /** One section of the walk. */
  lemma {:induction false} WalkOne(secs: seq<Sec>, prefix: string, key: string, k: nat)
    requires k < |secs| && prefix <= secs[k].name
    ensures var now := secs[k := TrimSec(secs[k])];
            if Config.Value(secs[k].kvs, key).None? then
              secs[..k] + Walk(secs[k..], prefix, key).0 == now && Walk(secs[k..], prefix, key).1 == []
            else
              && secs[..k] + Walk(secs[k..], prefix, key).0 == now[..k + 1] + Walk(now[k + 1..], prefix, key).0
              && Walk(secs[k..], prefix, key).1 == ConfsOf(secs[k].kvs) + Walk(now[k + 1..], prefix, key).1
  {
    var now := secs[k := TrimSec(secs[k])];
    assert secs[k..][1..] == secs[k + 1..] == now[k + 1..];
    assert secs[k..][0] == secs[k];
    assert now[..k + 1] == secs[..k] + [TrimSec(secs[k])];
    if Config.Value(secs[k].kvs, key).None? {
      assert now == secs[..k] + ([TrimSec(secs[k])] + secs[k + 1..]);
    } else {
      Assoc(secs[..k], [TrimSec(secs[k])], Walk(now[k + 1..], prefix, key).0);
    }
  }

  /** What the walk of `secs` that has reached position `i` ends with. */
  function Rest(secs: seq<Sec>, prefix: string, key: string, i: nat): (r: (seq<Sec>, seq<Conf>))
    requires i <= |secs|
    ensures i == |secs| ==> r == (secs, [])
  {
    var r := Walk(secs[i..], prefix, key);
    assert i == |secs| ==> r.0 == [] && secs[..i] + [] == secs;
    (secs[..i] + r.0, r.1)
  }

  /** What a walk that stands at position `i` with some configurations stored ends with. */
  function Progress(secs: seq<Sec>, configs: seq<Conf>, prefix: string, key: string, i: nat): (seq<Sec>, seq<Conf>)
    requires i <= |secs|
  {
    var r := Rest(secs, prefix, key, i);
    (r.0, configs + r.1)
  }

  lemma {:induction false} WalkStart(secs: seq<Sec>, configs: seq<Conf>, prefix: string, key: string)
    ensures var walk := Walk(secs, prefix, key);
            Progress(secs, configs, prefix, key, MatchFrom(secs, prefix, 0)) == (walk.0, configs + walk.1)
  {
    WalkJump(secs, prefix, key, 0);
    assert secs[0..] == secs && secs[..0] + Walk(secs, prefix, key).0 == Walk(secs, prefix, key).0;
  }

  lemma {:induction false} WalkEnd(secs: seq<Sec>, configs: seq<Conf>, prefix: string, key: string)
    ensures Progress(secs, configs, prefix, key, |secs|) == (secs, configs)
  {
    assert configs + [] == configs;
  }

  /** One turn of the loop, from the match at `k` to the next one. */
  lemma {:induction false} WalkTurn(secs: seq<Sec>, configs: seq<Conf>, prefix: string, key: string, k: nat)
    requires k < |secs| && prefix <= secs[k].name
    ensures var now := secs[k := TrimSec(secs[k])];
            Progress(secs, configs, prefix, key, k) ==
            if Config.Value(secs[k].kvs, key).None? then (now, configs)
            else Progress(now, configs + ConfsOf(secs[k].kvs), prefix, key, MatchFrom(now, prefix, k + 1))
  {
    WalkOne(secs, prefix, key, k);
    if Config.Value(secs[k].kvs, key).Some? {
      var now := secs[k := TrimSec(secs[k])];
      WalkJump(now, prefix, key, k + 1);
      Assoc(configs, ConfsOf(secs[k].kvs), Walk(now[k + 1..], prefix, key).1);
    } else {
      assert configs + [] == configs;
    }
  }

  // ----- the loader -----

  class ModemConfigs {
    var configs: seq<Conf>  // from g_first_modem_config to g_current_modem_config

    constructor ()
      ensures configs == []
    {
      configs := [];
    }

    /** get_value on the name of the section under the cursor finds that section. */
    method OwnValue(section: string, name: string, handle: Handle) returns (value: Option<string>)
      requires handle.Valid() && handle.current != null
      requires handle.current.name == section == Trim(section)
      modifies handle`current
      ensures handle.Valid() && handle.current == old(handle.current)
      ensures value == Config.Value(handle.current.View().kvs, name)
    {
      hide Handle.Shape, Handle.Secs, Handle.OnlyNodes, Trim;
      handle.Here();
      value := handle.GetValue(section, name);
      handle.Here();
    }

    /** store_config for the section under the cursor, whose name is trimmed already. Its
        searches find that section and leave the cursor there. */
    method StoreConfig(section: string, handle: Handle)
      requires handle.Valid() && handle.current != null
      requires handle.current.name == section == Trim(section)
      modifies this, handle`current
      ensures handle.Valid() && handle.current == old(handle.current)
      ensures configs == old(configs) + ConfsOf(handle.current.View().kvs)
    {
      hide Handle.Shape, Handle.OnlyNodes, Trim;
      ghost var kvs := handle.current.View().kvs;
      handle.NotANode(this);
      var module_ := OwnValue(section, "module", handle);
      if module_ != Some("modem") {
        return;
      }
      var eventname := OwnValue(section, "eventname", handle);
      if eventname.None? {
        return;
      }
      var pattern := OwnValue(section, "matching_pattern", handle);
      if pattern.None? {
        return;
      }
      var type_ := OwnValue(section, "type", handle);
      var path := OwnValue(section, "path_trigger", handle);
      var linked := OwnValue(section, "path_linked", handle);
      var class_ := OwnValue(section, "event_class", handle);
      var newconf := Conf(eventname.value, pattern.value, type_ == Some("dir"),
                          if path.None? then None else Some(CutPath(path.value)),
                          if linked.None? then "" else CutPath(linked.value),
                          if class_ == Some("ERROR") then 1 else if class_ == Some("INFO") then 2 else 0);
      assert ConfOf(kvs) == Some(newconf);
      configs := configs + [newconf];
    }

    /** sk_exists on the name of the section under the cursor: the name is trimmed in place. */
    method SectionHasKey(handle: Handle, key: string) returns (has: bool)
      requires handle.Valid() && handle.current != null
      modifies handle`current, handle.current`name
      ensures handle.Valid() && handle.current == old(handle.current)
      ensures var k := handle.current.index; handle.Secs() == old(handle.Secs())[k := TrimSec(old(handle.Secs())[k])]
      ensures has == Config.Value(handle.current.View().kvs, key).Some?
      ensures Trim(handle.current.name) == handle.current.name
    {
      hide Handle.Shape, Handle.Secs, Handle.OnlyNodes, Trim;
      TrimTwice(handle.current.name);
      handle.Here();
      handle.TrimName();
      handle.Here();
      var value := OwnValue(handle.current.name, key, handle);
      has := value.Some?;
    }

    /** One turn of the loop: the section under the cursor is stored if it has the key, and
        then the cursor moves to the next match. */
    method VisitSection(handle: Handle, section_pattern: string, key: string, ghost k: nat, ghost secs: seq<Sec>)
      returns (has: bool)
      requires handle.Valid() && handle.Cursor() == Some(k) && handle.Secs() == secs && k < |secs|
      modifies this, handle`current, handle.current`name
      ensures handle.Valid() && handle.Secs() == secs[k := TrimSec(secs[k])]
      ensures has == Config.Value(secs[k].kvs, key).Some?
      ensures configs == old(configs) + if has then ConfsOf(secs[k].kvs) else []
      ensures has ==> handle.Cursor() == Position(handle.Secs(), Prefix(Trim(section_pattern)), k + 1)
    {
      hide Handle.Shape, Handle.Secs, Handle.OnlyNodes, Trim, Prefix;
      handle.NotANode(this);
      handle.Here();
      has := SectionHasKey(handle, key);
      if has {
        handle.Here();
        StoreConfig(handle.current.name, handle);
        var next := handle.GetNextSection(section_pattern);
      }
    }

    /** load_config_by_pattern. The cursor is the one of a copy of the handle. */
    method LoadConfigByPattern(section_pattern: string, key_pattern: string, handle: Handle)
      requires handle.Valid()
      modifies this, handle`current, handle.nodes
      ensures handle.Valid() && handle.current == old(handle.current)
      ensures configs == old(configs) + Stored(old(handle.Secs()), Prefix(Trim(section_pattern)), key_pattern)
      ensures SameButTrimmed(old(handle.Secs()), handle.Secs())
    {
      WalkStores(handle.Secs(), Prefix(Trim(section_pattern)), key_pattern);
      WalkTrims(handle.Secs(), Prefix(Trim(section_pattern)), key_pattern);
      var cursor := handle.current;
      WalkSections(section_pattern, key_pattern, handle);
      handle.current := cursor;
    }

    /** The loop of load_config_by_pattern. */
    method WalkSections(section_pattern: string, key_pattern: string, handle: Handle)
      requires handle.Valid()
      modifies this, handle`current, handle.nodes
      ensures handle.Valid()
      ensures var walk := Walk(old(handle.Secs()), Prefix(Trim(section_pattern)), key_pattern);
              handle.Secs() == walk.0 && configs == old(configs) + walk.1
    {
      hide Handle.Shape, Handle.Secs, Handle.OnlyNodes, Trim, Prefix, Progress, Walk;
      handle.NotANode(this);
      ghost var prefix := Prefix(Trim(section_pattern));
      ghost var p, goal := MatchFrom(handle.Secs(), prefix, 0), Walk(handle.Secs(), prefix, key_pattern);
      WalkStart(handle.Secs(), configs, prefix, key_pattern);
      ghost var all := (goal.0, configs + goal.1);
      var cur := handle.GetFirstSection(section_pattern);
      while handle.current != null
        invariant handle.Valid()
        invariant p <= |handle.Secs()| && handle.Cursor() == if p < |handle.Secs()| then Some(p) else None
        invariant p < |handle.Secs()| ==> prefix <= handle.Secs()[p].name
        invariant Progress(handle.Secs(), configs, prefix, key_pattern, p) == all
        decreases |handle.Secs()| - p
      {
        handle.Here();
        WalkTurn(handle.Secs(), configs, prefix, key_pattern, p);
        ghost var secs := handle.Secs();
        var has := VisitSection(handle, section_pattern, key_pattern, p, secs);
        if !has {
          assert configs + [] == configs;
          return;
        }
        p := MatchFrom(handle.Secs(), prefix, p + 1);
      }
      WalkEnd(handle.Secs(), configs, prefix, key_pattern);
    }
  }
}
