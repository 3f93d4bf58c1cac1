/**
 The configuration store of crashlog/config.c: a linked list of sections with a cursor
 that is at once the place where the loader adds, a search cache and an iterator; and its
 use by crashlog/config_handler.c.
 */
module Config {
  import opened Text
  import opened ConfigText

  // ----- searching a list of sections -----

  /** Value of the first pair with a key. */
  function Value(kvs: seq<Kv>, key: string): Option<string> {
    if kvs == [] then None
    else if kvs[0].key == key then Some(kvs[0].value)
    else Value(kvs[1..], key)
  }

  /** Pair `i` is the first one with a key. */
  predicate IsFirstPair(kvs: seq<Kv>, key: string, i: nat)
    requires i < |kvs|
  {
    kvs[i].key == key && forall j :: 0 <= j < i ==> kvs[j].key != key
  }

  /** A key has the value of the first pair that has it, and no value exactly when none does. */
  lemma {:induction false} ValueIs(kvs: seq<Kv>, key: string)
    ensures forall i :: 0 <= i < |kvs| && IsFirstPair(kvs, key, i) ==> Value(kvs, key) == Some(kvs[i].value)
    ensures Value(kvs, key).None? <==> forall i :: 0 <= i < |kvs| ==> kvs[i].key != key
    ensures Value(kvs, key).Some? ==> exists i :: 0 <= i < |kvs| && IsFirstPair(kvs, key, i)
  {
    if kvs != [] && kvs[0].key == key {
      assert IsFirstPair(kvs, key, 0);
    } else if kvs != [] {
      var rest := kvs[1..];
      ValueIs(rest, key);
      forall i | 0 < i < |kvs|
        ensures IsFirstPair(kvs, key, i) <==> IsFirstPair(rest, key, i - 1)
      {
      }
      if Value(rest, key).Some? {
        var i :| 0 <= i < |rest| && IsFirstPair(rest, key, i);
        assert IsFirstPair(kvs, key, i + 1);
      }
    }
  }

  /** Index of the first section with a name, from `i` on. */
  function FirstNamed(secs: seq<Sec>, name: string, i: nat): (r: Option<nat>)
    requires i <= |secs|
    ensures r.Some? ==> i <= r.value < |secs| && secs[r.value].name == name &&
                        forall k :: i <= k < r.value ==> secs[k].name != name
    ensures r.None? ==> forall k :: i <= k < |secs| ==> secs[k].name != name
    decreases |secs| - i
  {
    if i == |secs| then None else if secs[i].name == name then Some(i) else FirstNamed(secs, name, i + 1)
  }

  /** Where find_section stops: at the cursor if it has the name, else at the first section that has. */
  function Target(secs: seq<Sec>, cursor: Option<nat>, name: string): (r: Option<nat>)
    requires cursor.Some? ==> cursor.value < |secs|
    ensures r.Some? ==> r.value < |secs|
  {
    if cursor.Some? && secs[cursor.value].name == name then cursor else FirstNamed(secs, name, 0)
  }

  function ValueAt(secs: seq<Sec>, at: Option<nat>, key: string): Option<string>
    requires at.Some? ==> at.value < |secs|
  {
    if at.None? then None else Value(secs[at.value].kvs, key)
  }

  predicate DistinctNames(secs: seq<Sec>) {
    forall i, j :: 0 <= i < j < |secs| ==> secs[i].name != secs[j].name
  }

  /** Which section a name designates does not depend on where earlier calls left the cursor,
      for any name, if and only if the names are distinct. */
  lemma {:induction false} CursorIrrelevant(secs: seq<Sec>)
    ensures DistinctNames(secs) <==>
      forall k, name :: 0 <= k < |secs| ==> Target(secs, Some(k), name) == FirstNamed(secs, name, 0)
  {
    if !DistinctNames(secs) {
      var i, j :| 0 <= i < j < |secs| && secs[i].name == secs[j].name;
      assert Target(secs, Some(j), secs[j].name) == Some(j) != FirstNamed(secs, secs[j].name, 0);
    }
  }

  /** strncmp with the pattern that find_base_section prints: `base "`, cut to its buffer. */
  function Prefix(base: string): string {
    var p := base + " \"";
    if |p| <= MAXLEN - 1 then p else p[..MAXLEN - 1]
  }

  /** It is that text, or as much of it as a buffer of 127 bytes holds. */
  lemma {:induction false} PrefixIs(base: string)
    ensures Prefix(base) <= base + " \"" && |Prefix(base)| == Min(|base| + 2, 126)
  {
  }

  /** Index of the first section whose name starts with a prefix, from `i` on. */
  function NextMatch(secs: seq<Sec>, prefix: string, i: nat): (r: Option<nat>)
    requires i <= |secs|
    ensures r.Some? ==> i <= r.value < |secs| && prefix <= secs[r.value].name
    decreases |secs| - i
  {
    if i == |secs| then None else if prefix <= secs[i].name then Some(i) else NextMatch(secs, prefix, i + 1)
  }

  /** All the sections from `i` on whose name starts with a prefix, in file order. */
  function Matching(secs: seq<Sec>, prefix: string, i: nat): seq<nat>
    requires i <= |secs|
    decreases |secs| - i
  {
    if i == |secs| then [] else
      (if prefix <= secs[i].name then [i] else []) + Matching(secs, prefix, i + 1)
  }

  /** Each match is listed once, in order. */
  lemma {:induction false} MatchingIsAll(secs: seq<Sec>, prefix: string, i: nat)
    requires i <= |secs|
    ensures forall k :: k in Matching(secs, prefix, i) <==> i <= k < |secs| && prefix <= secs[k].name
    ensures forall a, b :: 0 <= a < b < |Matching(secs, prefix, i)| ==>
      Matching(secs, prefix, i)[a] < Matching(secs, prefix, i)[b]
    decreases |secs| - i
  {
    if i < |secs| {
      MatchingIsAll(secs, prefix, i + 1);
      var rest := Matching(secs, prefix, i + 1);
      forall a | 0 <= a < |rest|
        ensures rest[a] > i
      {
        assert rest[a] in rest;
      }
      var here := if prefix <= secs[i].name then [i] else [];
      assert Matching(secs, prefix, i) == here + rest;
      forall k: nat
        ensures k in here + rest <==> k in here || k in rest
      {
      }
    }
  }

  /** First, then next until there is no more, goes through the matches one by one. */
  lemma {:induction false} NextMatchWalks(secs: seq<Sec>, prefix: string, i: nat)
    requires i <= |secs|
    ensures var next := NextMatch(secs, prefix, i);
            Matching(secs, prefix, i) ==
            if next.None? then [] else [next.value] + Matching(secs, prefix, next.value + 1)
    decreases |secs| - i
  {
    if i < |secs| {
      var here, rest := if prefix <= secs[i].name then [i] else [], Matching(secs, prefix, i + 1);
      assert Matching(secs, prefix, i) == here + rest;
      if here == [] {
        NextMatchWalks(secs, prefix, i + 1);
        assert here + rest == rest;
      }
    }
  }

  // ----- the nodes -----

  /** struct kv. The ghost fields say to which section the pair belongs, and where it stands. */
  class KvNode {
    const key: string
    const value: string
    var next: KvNode?
    ghost const owner: SectionNode
    ghost const index: nat

    constructor (key: string, value: string, ghost owner: SectionNode, ghost index: nat)
      ensures this.key == key && this.value == value && next == null
      ensures this.owner == owner && this.index == index
    {
      this.key, this.value, next, this.owner, this.index := key, value, null, owner, index;
    }
  }

  /** struct section. */
  class SectionNode {
    var name: string
    var kvlist: KvNode?
    var next: SectionNode?
    ghost const index: nat
    ghost var pairs: seq<KvNode>

    constructor (name: string, ghost index: nat)
      ensures this.name == name && kvlist == null && next == null && this.index == index && pairs == []
      ensures Linked()
    {
      this.name, kvlist, next, this.index, pairs := name, null, null, index, [];
    }

    /** The list from `kvlist` on is made of the pairs. */
    ghost predicate Linked()
      reads this`kvlist, this`pairs, pairs
    {
      && kvlist == PairAt(pairs, 0)
      && forall k :: 0 <= k < |pairs| ==>
          pairs[k].owner == this && pairs[k].index == k && pairs[k].next == PairAt(pairs, k + 1)
    }

    twostate lemma {:induction false} StillLinked()
      requires old(Linked()) && kvlist == old(kvlist) && pairs == old(pairs)
      requires forall p :: p in old(pairs) ==> p.next == old(p.next)
      ensures Linked()
    {
    }

    ghost function View(): Sec
      reads this`name, this`pairs
    {
      Sec(name, Kvs(pairs))
    }

    /** The walk of add_kv_pair to the last pair. */
    method Last() returns (lastkv: KvNode)
      requires Linked() && kvlist != null
      ensures |pairs| > 0 && lastkv == pairs[|pairs| - 1]
    {
      lastkv := kvlist;
      while lastkv.next != null
        invariant lastkv.index < |pairs| && pairs[lastkv.index] == lastkv
        decreases |pairs| - lastkv.index
      {
        lastkv := lastkv.next;
      }
    }

    /** The end of add_kv_pair: the new pair is linked after the last one. */
    method Append(key: string, value: string)
      requires Linked()
      modifies this`kvlist, this`pairs, pairs
      ensures Linked() && Kvs(pairs) == old(Kvs(pairs)) + [Kv(key, value)]
      ensures |pairs| > 0 && pairs[..|pairs| - 1] == old(pairs) && fresh(pairs[|pairs| - 1])
    {
      var newkv := new KvNode(key, value, this, |pairs|);
      if kvlist == null {
        kvlist := newkv;
      } else {
        var lastkv := Last();
        lastkv.next := newkv;
      }
      KvsSnoc(pairs, newkv);
      pairs := pairs + [newkv];
    }

    /** The loop of get_value over the pairs. */
    method FindValue(name: string) returns (result: Option<string>)
      requires Linked()
      ensures result == Value(View().kvs, name)
      ensures forall i :: 0 <= i < |pairs| && pairs[i].key == name && (forall j :: 0 <= j < i ==> pairs[j].key != name)
                ==> result == Some(pairs[i].value)
      ensures result.None? <==> forall i :: 0 <= i < |pairs| ==> pairs[i].key != name
    {
      var currkv := kvlist;
      ghost var kvs, i := Kvs(pairs), 0;
      while currkv != null && currkv.key != name
        invariant 0 <= i <= |pairs| && currkv == PairAt(pairs, i)
        invariant forall j :: 0 <= j < i ==> pairs[j].key != name
        invariant Value(kvs[i..], name) == Value(kvs, name)
        decreases |pairs| - i
      {
        currkv, i := currkv.next, i + 1;
      }
      result := if currkv == null then None else Some(currkv.value);
    }
  }

  ghost function PairAt(pairs: seq<KvNode>, k: nat): KvNode? {
    if k < |pairs| then pairs[k] else null
  }

  ghost function Kvs(pairs: seq<KvNode>): (r: seq<Kv>)
    ensures |r| == |pairs|
  {
    seq(|pairs|, k requires 0 <= k < |pairs| => Kv(pairs[k].key, pairs[k].value))
  }

  lemma {:induction false} KvsSnoc(pairs: seq<KvNode>, kv: KvNode)
    ensures Kvs(pairs + [kv]) == Kvs(pairs) + [Kv(kv.key, kv.value)]
  {
  }

  ghost function SectionAt(chain: seq<SectionNode>, k: nat): SectionNode? {
    if k < |chain| then chain[k] else null
  }

  ghost function Views(chain: seq<SectionNode>): (r: seq<Sec>)
    reads chain
    ensures |r| == |chain|
  {
    seq(|chain|, k requires 0 <= k < |chain| reads chain => chain[k].View())
  }

  // ----- the store -----

  /** config_handle: the linked list of sections from `first` on, and the cursor `current`. */
  class Handle {
    var first: SectionNode?
    var current: SectionNode?
    ghost var chain: seq<SectionNode>
    ghost var nodes: set<object>

    /** Section `k` of the chain is where it should be. */
    ghost predicate Placed(k: nat)
      requires k < |chain|
      reads this`chain, this`nodes, nodes
    {
      && chain[k] in nodes && (forall p :: p in chain[k].pairs ==> p in nodes)
      && chain[k].index == k && chain[k].next == SectionAt(chain, k + 1) && chain[k].Linked()
    }

    ghost predicate Shape()
      reads this`first, this`chain, this`nodes, nodes
    {
      first == SectionAt(chain, 0) && forall k :: 0 <= k < |chain| ==> Placed(k)
    }

    /** The other objects are apart. */
    ghost predicate OnlyNodes()
      reads this`nodes
    {
      forall o :: o in nodes ==> o is SectionNode || o is KvNode
    }

    ghost predicate CursorInChain()
      reads this`current, this`chain
    {
      current != null ==> current.index < |chain| && chain[current.index] == current
    }

    ghost predicate Valid()
      reads this, nodes
    {
      Shape() && CursorInChain() && OnlyNodes() && this !in nodes
    }

    /** What the nodes hold. */
    ghost function Secs(): (r: seq<Sec>)
      reads this`chain, chain
      ensures |r| == |chain|
    {
      Views(chain)
    }

    /** The position of the cursor. */
    ghost function Cursor(): Option<nat>
      reads this`current
    {
      if current == null then None else Some(current.index)
    }

    constructor ()
      ensures Valid() && Secs() == [] && current == null && nodes == {}
    {
      first, current, chain, nodes := null, null, [], {};
    }

    /** The node under the cursor. */
    lemma {:induction false} Here()
      requires Valid() && current != null
      ensures current.Linked() && current in nodes
      ensures forall p :: p in current.pairs ==> p in nodes
      ensures current.index < |Secs()| && Secs()[current.index] == current.View()
    {
      assert Placed(current.index);
    }

    lemma {:induction false} NotANode(o: object)
      requires Valid() && !(o is SectionNode) && !(o is KvNode)
      ensures o !in nodes
    {
    }

    /** conf_handle->current->next */
    lemma {:induction false} NextIs()
      requires Valid() && current != null
      ensures var next := current.next; var k := current.index + 1;
              k <= |chain| && if next == null then k == |chain| else next.index == k < |chain| && chain[k] == next
    {
      assert Placed(current.index);
      if current.index + 1 < |chain| {
        assert Placed(current.index + 1);
      }
    }

    lemma {:induction false} FirstIs()
      requires Valid()
      ensures if first == null then chain == [] else first.index == 0 < |chain| && chain[0] == first
    {
      if chain != [] {
        assert Placed(0);
      }
    }

    /** add_section: the new node becomes what follows the cursor, and the cursor moves to
        it. What followed the cursor before is no longer reachable. */
    method AddSection(config: string)
      requires Valid() && Parse(config).Header?
      requires first != null ==> current != null
      modifies this, current
      ensures Valid() && current != null && Cursor() == Some(|Secs()| - 1)
      ensures Secs() == (if old(first) == null then [] else old(Secs())[..old(current.index) + 1]) +
                        [Sec(Parse(config).name, [])]
      ensures fresh(nodes - old(nodes))
    {
      hide SectionNode.Linked;
      ghost var kept := if first == null then [] else chain[..current.index + 1];
      var newsect := new SectionNode(config[1..|config| - 1], |kept|);
      if first == null {
        first := newsect;
      } else {
        current.next := newsect;
      }
      current := newsect;
      chain, nodes := kept + [newsect], nodes + {newsect};
      forall k | 0 <= k < |chain|
        ensures Placed(k)
      {
        if k < |kept| {
          assert old(Placed(k));
        }
      }
    }

    /** add_kv_pair: a pair goes to the end of the section under the cursor. */
    method AddKvPair(config: string)
      requires Valid()
      modifies this`nodes, current, if current == null then [] else current.pairs
      ensures Valid()
      ensures var p := IndexOf(config, '=');
              Secs() == if current == null || p == |config| then old(Secs()) else
                var sec := old(Secs())[current.index];
                old(Secs())[current.index := Sec(sec.name, sec.kvs + [Kv(config[..p], config[p + 1..])])]
      ensures fresh(nodes - old(nodes))
    {
      if current == null {
        return;
      }
      var p := 0;
      while p < |config| && config[p] != '='
        invariant 0 <= p <= |config| && '=' !in config[..p]
      {
        p := p + 1;
      }
      IndexOfIs(config, '=', p);
      if p == |config| {
        return;
      }
      Grow(config[..p], config[p + 1..]);
    }

    /** What an operation on the pairs of the section under the cursor leaves alone. */
    twostate predicate OthersKept()
      reads this, current, chain, nodes
    {
      && old(Valid()) && current == old(current) != null && chain == old(chain) && first == old(first)
      && old(nodes) <= nodes && OnlyNodes() && this !in nodes
      && (forall k :: 0 <= k < |chain| && k != current.index ==> unchanged(chain[k]))
      && current.next == old(current.next) && current.name == old(current.name)
      && forall p: KvNode :: p in old(nodes) && p !in old(current.pairs) ==> unchanged(p)
    }

    twostate lemma {:induction false} StillPlaced(k: nat)
      requires OthersKept() && k < |chain| && k != current.index
      ensures Placed(k)
    {
      assert old(Placed(k)) && old(Placed(current.index));
      forall p | p in chain[k].pairs
        ensures p in old(nodes) && p !in old(current.pairs)
      {
        assert p.owner == chain[k];
      }
      chain[k].StillLinked();
    }

    twostate lemma {:induction false} StillValid()
      requires OthersKept() && current.Linked() && forall p :: p in current.pairs ==> p in nodes
      ensures Valid()
    {
      forall k | 0 <= k < |chain|
        ensures Placed(k)
      {
        assert old(Placed(k));
        if k != current.index {
          StillPlaced(k);
        }
      }
    }

    twostate lemma {:induction false} SecsGrown(kv: Kv)
      requires OthersKept() && Kvs(current.pairs) == old(Kvs(current.pairs)) + [kv]
      ensures var sec := old(Secs())[current.index];
              Secs() == old(Secs())[current.index := Sec(sec.name, sec.kvs + [kv])]
    {
      hide Shape;
    }

    /** The new pair in the section under the cursor. */
    method Grow(key: string, value: string)
      requires Valid() && current != null
      modifies this`nodes, current`kvlist, current`pairs, current.pairs
      ensures Valid() && fresh(nodes - old(nodes))
      ensures var sec := old(Secs())[current.index];
              Secs() == old(Secs())[current.index := Sec(sec.name, sec.kvs + [Kv(key, value)])]
    {
      Here();
      Others();
      hide SectionNode.Linked, Kvs, Secs, Shape, Views;
      current.Append(key, value);
      nodes := nodes + {current.pairs[|current.pairs| - 1]};
      StillValid();
      SecsGrown(Kv(key, value));
    }

    lemma {:induction false} Others()
      requires Valid() && current != null
      ensures forall k :: 0 <= k < |chain| && k != current.index ==> chain[k] != current
    {
      forall k | 0 <= k < |chain| && k != current.index
        ensures chain[k] != current
      {
        assert Placed(k);
      }
    }

    /** While a file is loaded the cursor is the last section. */
    ghost predicate AtEnd()
      reads this, nodes
    {
      Valid() && Cursor() == if chain == [] then None else Some(|chain| - 1)
    }

    /** generate_section_kv */
    method GenerateSectionKv(line: string)
      requires AtEnd()
      modifies this, nodes
      ensures AtEnd() && Secs() == Apply(old(Secs()), Parse(line))
      ensures fresh(nodes - old(nodes))
    {
      if line == "" || line[0] == ';' || line[0] == '#' {
        return;
      }
      if current != null {
        Here();
      }
      if line[0] == '[' && line[|line| - 1] == ']' {
        AddSection(line);
      } else {
        AddKvPair(line);
      }
    }

    /** The list is empty; the nodes that it had are given up. */
    method Clear()
      modifies this
      ensures AtEnd() && Secs() == [] && chain == [] && nodes == {}
    {
      first, current, chain, nodes := null, null, [], {};
    }

    /** init_config_file; the nodes of a file loaded earlier are given up. `below` are the bytes
        in memory before the line buffer, see config_trim. */
    method InitConfigFile(text: Option<string>, below: array<char>) returns (res: int)
      requires text.Some? ==> NoNul(text.value)
      requires HasInk(below[..])
      modifies this, below
      ensures AtEnd() && fresh(nodes)
      ensures text.None? ==> res == -1 && Secs() == [] && below[..] == old(below[..])
      ensures text.Some? ==> res == 0 && Secs() == Sections([], text.value)
      ensures !IsSpace(old(below[below.Length - 1])) ==> below[..] == old(below[..])
    {
      hide Shape, Secs, Apply, Parse, Trim;
      Clear();
      if text.None? {
        return -1;
      }
      var buff := new char[MAXLEN];
      var pos := 0;
      ghost var rest := text.value;
      while pos < |text.value|
        invariant AtEnd() && fresh(nodes) && buff !in nodes
        invariant 0 <= pos <= |text.value| && rest == text.value[pos..] && NoNul(rest)
        invariant Sections(Secs(), rest) == Sections([], text.value)
        invariant HasInk(below[..]) && (!IsSpace(old(below[below.Length - 1])) ==> below[..] == old(below[..]))
        decreases |text.value| - pos
      {
        SectionsStep(Secs(), rest);
        var line;
        line, pos := ReadTrimmed(text.value, pos, buff, below);
        GenerateSectionKv(line);
        rest := rest[PieceLen(rest)..];
      }
      res := 0;
    }

    /** config_trim on the name of the section under the cursor. */
    method TrimName()
      requires Valid() && current != null
      modifies current`name
      ensures Valid() && current.name == Trim(old(current.name))
      ensures var sec := old(Secs())[current.index]; Secs() == old(Secs())[current.index := Sec(current.name, sec.kvs)]
    {
      Here();
      Others();
      hide SectionNode.Linked, OnlyNodes, Trim;
      current.name := Trim(current.name);
      forall k | 0 <= k < |chain|
        ensures Placed(k)
      {
        assert old(Placed(k));
      }
    }

    /** find_section */
    method FindSection(name: string) returns (result: SectionNode?)
      requires Valid()
      modifies this`current
      ensures Valid() && result == current && Cursor() == Target(Secs(), old(Cursor()), name)
    {
      hide Shape, Secs, OnlyNodes;
      ghost var secs := Secs();
      if current != null {
        Here();
        if current.name == name {
          return current;
        }
      }
      FirstIs();
      current := first;
      while current != null && current.name != name
        invariant Valid() && Secs() == secs && FirstNamed(secs, name, From()) == FirstNamed(secs, name, 0)
        decreases |chain| - From()
      {
        Here();
        NextIs();
        current := current.next;
      }
      if current != null {
        Here();
      }
      result := current;
    }

    /** Where a walk still has to look. */
    ghost function From(): (r: nat)
      requires Valid()
      reads this, nodes
      ensures r <= |chain|
    {
      if current == null then |chain| else current.index
    }

    /** get_value; the name of the section is trimmed first. */
    method GetValue(section: string, name: string) returns (result: Option<string>)
      requires Valid()
      modifies this`current
      ensures Valid() && Cursor() == Target(Secs(), old(Cursor()), Trim(section))
      ensures result == ValueAt(Secs(), Cursor(), name)
      ensures current == null ==> result.None?
      ensures current != null ==>
                var kvs := Secs()[current.index].kvs;
                && (forall i :: 0 <= i < |kvs| && IsFirstPair(kvs, name, i) ==> result == Some(kvs[i].value))
                && (result.None? <==> forall i :: 0 <= i < |kvs| ==> kvs[i].key != name)
    {
      current := FindSection(Trim(section));
      if current == null {
        return None;
      }
      Here();
      result := current.FindValue(name);
      ValueIs(current.View().kvs, name);
    }

    /** find_base_section */
    method FindBaseSection(base: string, find_next: bool) returns (result: SectionNode?)
      requires Valid()
      modifies this`current
      ensures Valid() && result == current
      ensures Cursor() == if old(current) == null then None
                          else NextMatch(Secs(), Prefix(base), old(current).index + if find_next then 1 else 0)
    {
      hide Shape, Secs, OnlyNodes, Prefix;
      ghost var secs := Secs();
      if find_next && current != null {
        NextIs();
        current := current.next;
      }
      ghost var start := From();
      while current != null && !(Prefix(base) <= current.name)
        invariant Valid() && Secs() == secs
        invariant NextMatch(secs, Prefix(base), From()) == NextMatch(secs, Prefix(base), start)
        decreases |chain| - From()
      {
        Here();
        NextIs();
        current := current.next;
      }
      if current != null {
        Here();
      }
      result := current;
    }

    /** get_first_section_name: the section found, for its name. */
    method GetFirstSection(base: string) returns (result: SectionNode?)
      requires Valid()
      modifies this`current
      ensures Valid() && result == current && Cursor() == NextMatch(Secs(), Prefix(Trim(base)), 0)
    {
      FirstIs();
      current := first;
      result := FindBaseSection(Trim(base), false);
    }

    /** get_next_section_name */
    method GetNextSection(base: string) returns (result: SectionNode?)
      requires Valid()
      modifies this`current
      ensures Valid() && result == current
      ensures Cursor() == if old(current) == null then None
                          else NextMatch(Secs(), Prefix(Trim(base)), old(current).index + 1)
    {
      result := FindBaseSection(Trim(base), true);
    }
  }

  /** fgets and config_trim: the next piece of the file, trimmed. */
  method ReadTrimmed(text: string, pos: nat, buff: array<char>, below: array<char>)
    returns (line: string, next: nat)
    requires pos < |text| && buff.Length == MAXLEN && NoNul(text[pos..])
    requires buff != below && HasInk(below[..])
    modifies buff, below
    ensures line == Trim(text[pos..][..PieceLen(text[pos..])])
    ensures next == pos + PieceLen(text[pos..]) <= |text|
    ensures text[next..] == text[pos..][PieceLen(text[pos..])..]
    ensures HasInk(below[..])
    ensures !IsSpace(old(below[below.Length - 1])) ==> below[..] == old(below[..])
  {
    hide Trim, CutBelow, CString;
    ghost var m, piece := below[..], text[pos..][..PieceLen(text[pos..])];
    var n := PieceLen(text[pos..]);
    forall k | 0 <= k < n {
      buff[k] := text[pos + k];
    }
    buff[n] := NUL;
    assert below[..] == m;
    assert buff[..][..n] == piece;
    StrIs(buff[..], piece);
    ConfigTrim(buff, below);
    BelowKept(m);
    line := CString(buff[..]);
    next := pos + n;
  }

  lemma {:induction false} BelowKept(below: string)
    requires HasInk(below)
    ensures !IsSpace(below[|below| - 1]) ==> CutBelow(below) == below
  {
  }
}
