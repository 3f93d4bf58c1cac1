/**
 Symbol tables (backtrace/symbols.c and its 64-bit twin symbols_64.c): built from the
 dynamic and the static symbol section of an ELF file (System V ABI, chapter 4, "Symbol
 Table"), sorted by address, then searched for the symbol that contains an address.
 */
module Symbols {
  import opened Text

  const SHN_UNDEF := 0
  const SHT_SYMTAB := 2
  const SHT_DYNSYM := 11

  /** The entry of a symbol section, its name already looked up in the string table. */
  datatype ElfSym = ElfSym(shndx: nat, name: string, value: nat, size: nat)

  datatype Section = Section(kind: int, symbols: seq<ElfSym>)

  datatype Symbol = Symbol(addr: nat, size: nat, name: string)

  // ----- construction -----

  predicate KeepsDynamic(s: ElfSym) {
    s.shndx != SHN_UNDEF
  }

  predicate KeepsStatic(s: ElfSym) {
    s.shndx != SHN_UNDEF && s.name != "" && s.value != 0 && s.size != 0
  }

  function ToSymbol(s: ElfSym): Symbol {
    Symbol(s.value, s.size, s.name)
  }

  /** The table entries of the symbols of a section that pass a test, in order. */
  function Kept(syms: seq<ElfSym>, keeps: ElfSym -> bool): seq<Symbol> {
    if syms == [] then [] else
      var last := syms[|syms| - 1];
      Kept(syms[..|syms| - 1], keeps) + if keeps(last) then [ToSymbol(last)] else []
  }

  predicate Gives(s: ElfSym, keeps: ElfSym -> bool, e: Symbol) {
    keeps(s) && ToSymbol(s) == e
  }

  /** Where a section holds the symbols that pass a test and give a table entry. */
  function Sources(syms: seq<ElfSym>, keeps: ElfSym -> bool, e: Symbol): set<nat> {
    set i: nat | i < |syms| && Gives(syms[i], keeps, e)
  }

  lemma {:induction false} SourcesStep(syms: seq<ElfSym>, keeps: ElfSym -> bool, e: Symbol)
    requires syms != []
    ensures var n := |syms| - 1;
            |Sources(syms, keeps, e)| == |Sources(syms[..n], keeps, e)| + if Gives(syms[n], keeps, e) then 1 else 0
  {
    var n := |syms| - 1;
    var all, before := Sources(syms, keeps, e), Sources(syms[..n], keeps, e);
    forall i: nat
      ensures i in all <==> i in before || (i == n && Gives(syms[n], keeps, e))
    {
    }
    if Gives(syms[n], keeps, e) {
      assert all == before + {n};
    } else {
      assert all == before;
    }
  }

  /** An entry is in the table as many times as the section holds a symbol that gives it. */
  lemma {:induction false} KeptTimes(syms: seq<ElfSym>, keeps: ElfSym -> bool, e: Symbol)
    ensures multiset(Kept(syms, keeps))[e] == |Sources(syms, keeps, e)|
  {
    if syms != [] {
      KeptTimes(syms[..|syms| - 1], keeps, e);
      SourcesStep(syms, keeps, e);
    }
  }

  /** The symbols of the last section of a kind; none when there is no such section. */
  function LastOfKind(sections: seq<Section>, kind: int): Option<seq<ElfSym>> {
    if sections == [] then None
    else if sections[|sections| - 1].kind == kind then Some(sections[|sections| - 1].symbols)
    else LastOfKind(sections[..|sections| - 1], kind)
  }

  function SymbolsOf(section: Option<seq<ElfSym>>): seq<ElfSym> {
    if section.Some? then section.value else []
  }

  /** The table before it is sorted; no table when the file has no symbol section. */
  function Unsorted(sections: seq<Section>): Option<seq<Symbol>> {
    var dyn, stat := LastOfKind(sections, SHT_DYNSYM), LastOfKind(sections, SHT_SYMTAB);
    if dyn.None? && stat.None? then None
    else Some(Kept(SymbolsOf(dyn), KeepsDynamic) + Kept(SymbolsOf(stat), KeepsStatic))
  }

  /** Section `i` is the last one of its kind. */
  predicate IsLast(sections: seq<Section>, i: nat)
    requires i < |sections|
  {
    forall j :: i < j < |sections| ==> sections[j].kind != sections[i].kind
  }

  lemma {:induction false} LastOfKindIs(sections: seq<Section>, kind: int)
    ensures LastOfKind(sections, kind).None? <==> forall i :: 0 <= i < |sections| ==> sections[i].kind != kind
    ensures forall i :: 0 <= i < |sections| && sections[i].kind == kind && IsLast(sections, i) ==>
              LastOfKind(sections, kind) == Some(sections[i].symbols)
    ensures LastOfKind(sections, kind).Some? ==>
              exists i :: 0 <= i < |sections| && sections[i].kind == kind && IsLast(sections, i)
  {
    if sections != [] {
      var n := |sections| - 1;
      var before := sections[..n];
      LastOfKindIs(before, kind);
      if sections[n].kind == kind {
        assert IsLast(sections, n);
      } else {
        forall i | 0 <= i < n && sections[i].kind == kind
          ensures IsLast(sections, i) <==> IsLast(before, i)
        {
        }
      }
    }
  }

  lemma {:induction false} KeptHolds(syms: seq<ElfSym>, keeps: ElfSym -> bool, e: Symbol)
    ensures e in Kept(syms, keeps) <==>
            exists s :: s in syms && keeps(s) && s.value == e.addr && s.size == e.size && s.name == e.name
  {
    if syms != [] {
      var n := |syms| - 1;
      KeptHolds(syms[..n], keeps, e);
      assert syms == syms[..n] + [syms[n]];
      assert forall s :: s in syms <==> s in syms[..n] || s == syms[n];
      assert forall x :: x in Kept(syms, keeps) <==>
               x in Kept(syms[..n], keeps) || (keeps(syms[n]) && x == ToSymbol(syms[n]));
    }
  }

  /** A symbol that the table must list: of the last dynamic section if it is defined, of the
      last static section if it is defined and has a name, a value and a size. */
  predicate Defines(sections: seq<Section>, i: nat, s: ElfSym)
    requires i < |sections|
  {
    && s in sections[i].symbols && s.shndx != 0 && IsLast(sections, i)
    && (sections[i].kind == 11 || (sections[i].kind == 2 && s.name != "" && s.value != 0 && s.size != 0))
  }

  /** The entries of the table are those symbols, each with its value as start, its size and its
      name; there is no table exactly when there is neither section. */
  lemma {:induction false} UnsortedHolds(sections: seq<Section>, e: Symbol)
    ensures Unsorted(sections).None? <==>
            forall i :: 0 <= i < |sections| ==> sections[i].kind != 2 && sections[i].kind != 11
    ensures Unsorted(sections).Some? ==>
              (e in Unsorted(sections).value <==>
                 exists i, s :: 0 <= i < |sections| && Defines(sections, i, s) &&
                                s.value == e.addr && s.size == e.size && s.name == e.name)
  {
    LastOfKindIs(sections, 11);
    LastOfKindIs(sections, 2);
    var dyn, stat := LastOfKind(sections, 11), LastOfKind(sections, 2);
    KeptHolds(SymbolsOf(dyn), KeepsDynamic, e);
    KeptHolds(SymbolsOf(stat), KeepsStatic, e);
    if Unsorted(sections).Some? {
      if e in Kept(SymbolsOf(dyn), KeepsDynamic) {
        var i :| 0 <= i < |sections| && sections[i].kind == 11 && IsLast(sections, i);
        var s :| s in dyn.value && KeepsDynamic(s) && s.value == e.addr && s.size == e.size && s.name == e.name;
        assert Defines(sections, i, s);
      }
      if e in Kept(SymbolsOf(stat), KeepsStatic) {
        var i :| 0 <= i < |sections| && sections[i].kind == 2 && IsLast(sections, i);
        var s :| s in stat.value && KeepsStatic(s) && s.value == e.addr && s.size == e.size && s.name == e.name;
        assert Defines(sections, i, s);
      }
    }
  }

  method FindSection(sections: seq<Section>, kind: int) returns (idx: int)
    ensures -1 <= idx < |sections|
    ensures LastOfKind(sections, kind) == if idx == -1 then None else Some(sections[idx].symbols)
  {
    idx := -1;
    for i := 0 to |sections|
      invariant -1 <= idx < i
      invariant LastOfKind(sections[..i], kind) == if idx == -1 then None else Some(sections[idx].symbols)
    {
      assert sections[..i + 1][..i] == sections[..i];
      if sections[i].kind == kind {
        idx := i;
      }
    }
    assert sections[..|sections|] == sections;
  }

  method Count(syms: seq<ElfSym>, keeps: ElfSym -> bool) returns (count: nat)
    ensures count == |Kept(syms, keeps)|
  {
    count := 0;
    for i := 0 to |syms|
      invariant count == |Kept(syms[..i], keeps)|
    {
      assert syms[..i + 1][..i] == syms[..i];
      if keeps(syms[i]) {
        count := count + 1;
      }
    }
    assert syms[..|syms|] == syms;
  }

  /** The populate loop: fills the table from index `start` on. */
  method Populate(symbols: array<Symbol>, start: nat, syms: seq<ElfSym>, keeps: ElfSym -> bool) returns (j: nat)
    requires start + |Kept(syms, keeps)| <= symbols.Length
    modifies symbols
    ensures j == start + |Kept(syms, keeps)|
    ensures symbols[..j] == old(symbols[..start]) + Kept(syms, keeps)
  {
    j := start;
    for i := 0 to |syms|
      invariant j == start + |Kept(syms[..i], keeps)| <= symbols.Length
      invariant symbols[..j] == old(symbols[..start]) + Kept(syms[..i], keeps)
    {
      KeptGrows(syms, i + 1, keeps);
      assert syms[..i + 1][..i] == syms[..i];
      if keeps(syms[i]) {
        symbols[j] := ToSymbol(syms[i]);
        j := j + 1;
      }
    }
    assert syms[..|syms|] == syms;
  }

  lemma {:induction false} KeptGrows(syms: seq<ElfSym>, i: nat, keeps: ElfSym -> bool)
    requires i <= |syms|
    ensures |Kept(syms[..i], keeps)| <= |Kept(syms, keeps)|
    decreases |syms|
  {
    if i < |syms| {
      assert syms[..|syms| - 1][..i] == syms[..i];
      KeptGrows(syms[..|syms| - 1], i, keeps);
    } else {
      assert syms[..i] == syms;
    }
  }

  /** symbol_tables_create, up to the call of qsort: the counting loops size the array that
      the populating loops then fill exactly. */
  method CreateUnsorted(sections: seq<Section>) returns (table: Option<seq<Symbol>>)
    ensures table == Unsorted(sections)
  {
    var sym_idx := FindSection(sections, SHT_SYMTAB);
    var dynsym_idx := FindSection(sections, SHT_DYNSYM);
    if dynsym_idx == -1 && sym_idx == -1 {
      return None;
    }
    ghost var dyn := SymbolsOf(LastOfKind(sections, SHT_DYNSYM));
    ghost var stat := SymbolsOf(LastOfKind(sections, SHT_SYMTAB));
    var symbol_count, dynsymbol_count := 0, 0;
    if dynsym_idx != -1 {
      dynsymbol_count := Count(sections[dynsym_idx].symbols, KeepsDynamic);
    }
    if sym_idx != -1 {
      symbol_count := Count(sections[sym_idx].symbols, KeepsStatic);
    }
    var symbols := new Symbol[symbol_count + dynsymbol_count](_ => Symbol(0, 0, ""));
    var j := 0;
    if dynsym_idx != -1 {
      j := Populate(symbols, j, sections[dynsym_idx].symbols, KeepsDynamic);
    }
    assert symbols[..j] == Kept(dyn, KeepsDynamic);
    if sym_idx != -1 {
      j := Populate(symbols, j, sections[sym_idx].symbols, KeepsStatic);
    }
    assert symbols[..j] == Kept(dyn, KeepsDynamic) + Kept(stat, KeepsStatic);
    assert j == symbols.Length && symbols[..j] == symbols[..];
    table := Some(symbols[..]);
  }

  // ----- order -----

  const INT_MOD := 0x1_0000_0000

  /** qcompar and qcompar64: the difference of two addresses. qsort takes the result as an int,
      so in both programs it sees the low 32 bits, signed. */
  function QCompare(a: Symbol, b: Symbol): int {
    var d := (a.addr - b.addr) % INT_MOD;
    if d < INT_MOD / 2 then d else d - INT_MOD
  }

  /** It is the int with the same remainder modulo 2^32 as the difference. */
  lemma {:induction false} QCompareIs(a: Symbol, b: Symbol)
    ensures -0x8000_0000 <= QCompare(a, b) < 0x8000_0000
    ensures QCompare(a, b) % 0x1_0000_0000 == (a.addr - b.addr) % 0x1_0000_0000
  {
  }

  /** The comparison tells which of two symbols starts first, or that they start together. */
  predicate Compares(a: Symbol, b: Symbol) {
    && (QCompare(a, b) > 0 <==> a.addr > b.addr)
    && (QCompare(a, b) < 0 <==> a.addr < b.addr)
  }

  /** How far two starts are apart, in the bits that qsort sees. */
  function Apart(a: Symbol, b: Symbol): nat {
    (if a.addr >= b.addr then a.addr - b.addr else b.addr - a.addr) % INT_MOD
  }

  /** The comparison is right in both directions if and only if the starts are equal, or less
      than 2^31 and not 0 apart in their low 32 bits. */
  lemma {:induction false} QCompareExact(a: Symbol, b: Symbol)
    ensures Compares(a, b) && Compares(b, a) <==> a.addr == b.addr || 0 < Apart(a, b) < INT_MOD / 2
  {
    if a.addr > b.addr {
      Opposite(a.addr - b.addr);
    } else {
      Opposite(b.addr - a.addr);
    }
  }

  lemma {:induction false} Opposite(x: int)
    requires x >= 0
    ensures (-x) % INT_MOD == if x % INT_MOD == 0 then 0 else INT_MOD - x % INT_MOD
  {
  }

  /** A result that qsort may leave: the same entries, none after one it compares above. */
  ghost predicate QSorted(t: seq<Symbol>, unsorted: seq<Symbol>) {
    && multiset(t) == multiset(unsorted)
    && forall i, j :: 0 <= i < j < |t| ==> QCompare(t[i], t[j]) <= 0
  }

  // ----- search -----

  predicate Covers(s: Symbol, addr: nat) {
    s.addr <= addr < s.addr + s.size
  }

  /** bcompar */
  function BCompare(addr: nat, s: Symbol): int {
    if addr < s.addr then -1 else if addr - s.addr >= s.size then 1 else 0
  }

  /** Neither the starts nor the ends of the symbols decrease along the table. */
  predicate Ordered(t: seq<Symbol>) {
    forall i, j :: 0 <= i < j < |t| ==> t[i].addr <= t[j].addr && t[i].addr + t[i].size <= t[j].addr + t[j].size
  }

  /** bsearch of the C library with bcompar, on the `lim` entries from `base` on. */
  function Search(addr: nat, t: seq<Symbol>, base: nat, lim: nat): (r: Option<nat>)
    requires base + lim <= |t|
    ensures r.Some? ==> r.value < |t| && Covers(t[r.value], addr)
    decreases lim
  {
    if lim == 0 then None else
      var p := base + lim / 2;
      var cmp := BCompare(addr, t[p]);
      if cmp == 0 then Some(p)
      else if cmp > 0 then Search(addr, t, p + 1, (lim - 1) / 2)
      else Search(addr, t, base, lim / 2)
  }

  method Bsearch(addr: nat, t: seq<Symbol>) returns (r: Option<nat>)
    ensures r == Search(addr, t, 0, |t|)
  {
    var base, lim := 0, |t|;
    while lim != 0
      invariant 0 <= base <= base + lim <= |t|
      invariant Search(addr, t, 0, |t|) == Search(addr, t, base, lim)
      decreases lim
    {
      var p := base + lim / 2;
      var cmp := BCompare(addr, t[p]);
      if cmp == 0 {
        return Some(p);
      }
      if cmp > 0 {
        base := p + 1;
        lim := lim - 1;
      }
      lim := lim / 2;
    }
    r := None;
  }

  /** On an ordered table the search finds something whenever a linear scan does. */
  lemma {:induction false} SearchComplete(addr: nat, t: seq<Symbol>, base: nat, lim: nat, i: nat)
    requires base + lim <= |t| && Ordered(t)
    requires base <= i < base + lim && Covers(t[i], addr)
    ensures Search(addr, t, base, lim).Some?
    decreases lim
  {
    var p := base + lim / 2;
    if BCompare(addr, t[p]) > 0 {
      SearchComplete(addr, t, p + 1, (lim - 1) / 2, i);
    } else if BCompare(addr, t[p]) < 0 {
      SearchComplete(addr, t, base, lim / 2, i);
    }
  }

  /** The starts of the symbols do not decrease along the table. */
  predicate StartsOrdered(t: seq<Symbol>) {
    forall i, j :: 0 <= i < j < |t| ==> t[i].addr <= t[j].addr
  }

  /** Whatever part of the table is searched for whatever address, a symbol is found when one
      of that part covers the address. */
  ghost predicate Complete(t: seq<Symbol>) {
    forall addr: nat, base: nat, lim: nat, i: nat ::
      (base + lim <= |t| && base <= i < base + lim && Covers(t[i], addr)) ==> Search(addr, t, base, lim).Some?
  }

  /** An end that decreases hides the last address of the symbol before it. */
  lemma {:induction false} InversionHides(t: seq<Symbol>, i: nat)
    requires i + 1 < |t| && t[i].addr <= t[i + 1].addr
    requires t[i].addr + t[i].size > t[i + 1].addr + t[i + 1].size
    ensures var addr := t[i].addr + t[i].size - 1;
            Covers(t[i], addr) && Search(addr, t, i, 2).None?
  {
  }

  lemma {:induction false} EndsOrdered(t: seq<Symbol>, i: nat, j: nat)
    requires i <= j < |t|
    requires forall k :: 0 <= k && k + 1 < |t| ==> t[k].addr + t[k].size <= t[k + 1].addr + t[k + 1].size
    ensures t[i].addr + t[i].size <= t[j].addr + t[j].size
    decreases j - i
  {
    if i < j {
      EndsOrdered(t, i + 1, j);
    }
  }

  /** On a table ordered by starts, the search is complete if and only if the ends are in order
      too. */
  lemma {:induction false} CompleteExactly(t: seq<Symbol>)
    requires StartsOrdered(t)
    ensures Complete(t) <==> Ordered(t)
  {
    if Ordered(t) {
      forall addr: nat, base: nat, lim: nat, i: nat
        | base + lim <= |t| && base <= i < base + lim && Covers(t[i], addr)
        ensures Search(addr, t, base, lim).Some?
      {
        SearchComplete(addr, t, base, lim, i);
      }
    }
    if Complete(t) {
      forall k | 0 <= k && k + 1 < |t|
        ensures t[k].addr + t[k].size <= t[k + 1].addr + t[k + 1].size
      {
        if t[k].addr + t[k].size > t[k + 1].addr + t[k + 1].size {
          InversionHides(t, k);
        }
      }
      forall i, j | 0 <= i < j < |t|
        ensures t[i].addr <= t[j].addr && t[i].addr + t[i].size <= t[j].addr + t[j].size
      {
        EndsOrdered(t, i, j);
      }
    }
  }

  /** symbol_tables_lookup; the 64-bit twin does not reject the null address. */
  function Found(table: Option<seq<Symbol>>, addr: nat, is64: bool): Option<Symbol> {
    if table.None? || (addr == 0 && !is64) then None else
      var p := Search(addr, table.value, 0, |table.value|);
      if p.None? then None else Some(table.value[p.value])
  }

  method Lookup(table: Option<seq<Symbol>>, addr: nat, is64: bool) returns (r: Option<Symbol>)
    ensures r == Found(table, addr, is64)
    ensures table.None? || (addr == 0 && !is64) ==> r.None?
  {
    if table.None? {
      return None;
    }
    if addr == 0 && !is64 {
      return None;
    }
    var p := Bsearch(addr, table.value);
    if p.None? {
      return None;
    }
    r := Some(table.value[p.value]);
  }

  /** On an ordered table the lookup of a usable address agrees with a linear scan. */
  lemma {:induction false} FoundIsScan(t: seq<Symbol>, addr: nat, is64: bool)
    requires Ordered(t) && (addr != 0 || is64)
    ensures Found(Some(t), addr, is64).Some? <==> exists s :: s in t && Covers(s, addr)
    ensures Found(Some(t), addr, is64).Some? ==>
      Found(Some(t), addr, is64).value in t && Covers(Found(Some(t), addr, is64).value, addr)
  {
    var p := Search(addr, t, 0, |t|);
    forall s | s in t && Covers(s, addr) ensures p.Some? {
      var i :| 0 <= i < |t| && t[i] == s;
      SearchComplete(addr, t, 0, |t|, i);
    }
    assert p.Some? ==> t[p.value] in t && Covers(t[p.value], addr);
  }

  // ----- from the ELF file to the symbol found -----

  /** The comparison is right for every two entries. */
  ghost predicate Comparable(u: seq<Symbol>) {
    forall a, b :: a in u && b in u ==> Compares(a, b)
  }

  lemma {:induction false} ComparableExactly(u: seq<Symbol>)
    ensures Comparable(u) <==>
            forall a, b :: a in u && b in u ==> a.addr == b.addr || 0 < Apart(a, b) < INT_MOD / 2
  {
    forall a, b | a in u && b in u
      ensures Compares(a, b) && Compares(b, a) <==> a.addr == b.addr || 0 < Apart(a, b) < INT_MOD / 2
    {
      QCompareExact(a, b);
    }
  }

  /** Entries that start together have the same size, and a later start has no earlier end. */
  ghost predicate EndsFit(u: seq<Symbol>) {
    forall a, b :: a in u && b in u && a.addr <= b.addr ==>
      a.addr + a.size <= b.addr + b.size && (a.addr == b.addr ==> a.size == b.size)
  }

  /** Entries that start apart do not overlap. */
  ghost predicate Disjoint(u: seq<Symbol>) {
    forall a, b :: a in u && b in u && a.addr < b.addr ==> a.addr + a.size <= b.addr
  }

  /** An entry may be listed twice, as the functions of an unstripped library are: in its dynamic
      and in its static section. */
  lemma {:induction false} ListedTwice(u: seq<Symbol>, v: seq<Symbol>)
    requires forall s :: s in v ==> s in u
    ensures Comparable(u + v) <==> Comparable(u)
    ensures EndsFit(u + v) <==> EndsFit(u)
    ensures Disjoint(u + v) <==> Disjoint(u)
  {
    assert forall s :: s in u + v <==> s in u;
  }

  lemma {:induction false} SameEntries(t: seq<Symbol>, u: seq<Symbol>, s: Symbol)
    requires multiset(t) == multiset(u)
    ensures s in t <==> s in u
  {
    assert s in t <==> s in multiset(t);
    assert s in u <==> s in multiset(u);
  }

  /** With a right comparison, what qsort leaves is what is ordered by starts. */
  lemma {:induction false} SortedByStarts(t: seq<Symbol>, u: seq<Symbol>)
    requires Comparable(u)
    ensures QSorted(t, u) <==> multiset(t) == multiset(u) && StartsOrdered(t)
  {
    if multiset(t) == multiset(u) {
      forall i, j | 0 <= i < j < |t|
        ensures QCompare(t[i], t[j]) <= 0 <==> t[i].addr <= t[j].addr
      {
        SameEntries(t, u, t[i]);
        SameEntries(t, u, t[j]);
        assert Compares(t[i], t[j]);
      }
    }
  }

  lemma {:induction false} FitIsOrdered(t: seq<Symbol>, u: seq<Symbol>)
    requires QSorted(t, u) && Comparable(u) && EndsFit(u)
    ensures Ordered(t)
  {
    SortedByStarts(t, u);
    forall i, j | 0 <= i < j < |t|
      ensures t[i].addr <= t[j].addr && t[i].addr + t[i].size <= t[j].addr + t[j].size
    {
      SameEntries(t, u, t[i]);
      SameEntries(t, u, t[j]);
    }
  }

  /** On the table of a file, whatever order qsort leaves: nothing exactly when no entry covers
      the address, else one that does, and the one extent that covers it when the entries do not
      overlap. */
  lemma {:induction false} EntryFound(u: seq<Symbol>, t: seq<Symbol>, addr: nat, is64: bool)
    requires (addr != 0 || is64) && QSorted(t, u) && Comparable(u) && EndsFit(u)
    ensures var r := Found(Some(t), addr, is64);
            && (r.None? <==> forall s :: s in u ==> !Covers(s, addr))
            && (r.Some? ==> r.value in u && Covers(r.value, addr))
            && (Disjoint(u) ==>
                  forall s :: s in u && Covers(s, addr) ==>
                    r.Some? && r.value.addr == s.addr && r.value.size == s.size)
  {
    FitIsOrdered(t, u);
    FoundIsScan(t, addr, is64);
    forall s
      ensures s in t <==> s in u
    {
      SameEntries(t, u, s);
    }
  }

  /** Symbol `s` of section `i` is one that the table must list, and it covers the address. */
  predicate DefinesAt(sections: seq<Section>, addr: nat, i: nat, s: ElfSym)
    requires i < |sections|
  {
    Defines(sections, i, s) && s.value <= addr < s.value + s.size
  }

  /** From the symbols of the file to the answer: nothing exactly when no symbol that the table
      must list covers the address; else the value, the size and the name of one that does; and
      when they do not overlap, its value and its size are those of each that does. */
  lemma {:induction false} LookupMeaning(sections: seq<Section>, t: seq<Symbol>, addr: nat, is64: bool)
    requires Unsorted(sections).Some? && (addr != 0 || is64)
    requires var u := Unsorted(sections).value; QSorted(t, u) && Comparable(u) && EndsFit(u)
    ensures var r := Found(Some(t), addr, is64);
            && (r.None? <==> forall i, s :: 0 <= i < |sections| ==> !DefinesAt(sections, addr, i, s))
            && (r.Some? ==>
                  exists i, s :: 0 <= i < |sections| && DefinesAt(sections, addr, i, s) &&
                                 r.value.addr == s.value && r.value.size == s.size && r.value.name == s.name)
            && (Disjoint(Unsorted(sections).value) ==>
                  forall i, s :: 0 <= i < |sections| && DefinesAt(sections, addr, i, s) ==>
                    r.Some? && r.value.addr == s.value && r.value.size == s.size)
  {
    hide Unsorted, Found, QSorted, Comparable, EndsFit, Disjoint;
    var u, r := Unsorted(sections).value, Found(Some(t), addr, is64);
    EntryFound(u, t, addr, is64);
    forall i, s | 0 <= i < |sections| && DefinesAt(sections, addr, i, s)
      ensures ToSymbol(s) in u && Covers(ToSymbol(s), addr)
    {
      UnsortedHolds(sections, ToSymbol(s));
    }
    if r.Some? {
      UnsortedHolds(sections, r.value);
      var i, s :| 0 <= i < |sections| && Defines(sections, i, s) &&
        s.value == r.value.addr && s.size == r.value.size && s.name == r.value.name;
      assert DefinesAt(sections, addr, i, s);
    } else {
      forall i, s | 0 <= i < |sections|
        ensures !DefinesAt(sections, addr, i, s)
      {
        UnsortedHolds(sections, ToSymbol(s));
      }
    }
  }

  // ----- the exact condition -----

  /** A table ordered by starts. */
  function Inserted(t: seq<Symbol>, s: Symbol): seq<Symbol> {
    if t == [] || s.addr <= t[0].addr then [s] + t else [t[0]] + Inserted(t[1..], s)
  }

  function SortByStart(u: seq<Symbol>): seq<Symbol> {
    if u == [] then [] else Inserted(SortByStart(u[1..]), u[0])
  }

  lemma {:induction false} InsertedIs(t: seq<Symbol>, s: Symbol)
    requires StartsOrdered(t)
    ensures StartsOrdered(Inserted(t, s)) && multiset(Inserted(t, s)) == multiset(t) + multiset{s}
  {
    if t != [] && s.addr > t[0].addr {
      InsertedIs(t[1..], s);
      assert t == [t[0]] + t[1..];
      NoneBelow(Inserted(t[1..], s), t, s);
    }
  }

  lemma {:induction false} NoneBelow(rest: seq<Symbol>, t: seq<Symbol>, s: Symbol)
    requires t != [] && StartsOrdered(t) && s.addr > t[0].addr
    requires multiset(rest) == multiset(t[1..]) + multiset{s}
    ensures forall k :: 0 <= k < |rest| ==> t[0].addr <= rest[k].addr
  {
    forall k | 0 <= k < |rest|
      ensures t[0].addr <= rest[k].addr
    {
      assert rest[k] in multiset(rest);
      if rest[k] != s {
        assert rest[k] in multiset(t[1..]);
        var m :| 0 <= m < |t| - 1 && t[1..][m] == rest[k];
      }
    }
  }

  lemma {:induction false} SortExists(u: seq<Symbol>)
    ensures StartsOrdered(SortByStart(u)) && multiset(SortByStart(u)) == multiset(u)
  {
    if u != [] {
      SortExists(u[1..]);
      InsertedIs(SortByStart(u[1..]), u[0]);
      assert u == [u[0]] + u[1..];
    }
  }

  lemma {:induction false} SwapSameStart(t: seq<Symbol>, i: nat, j: nat)
    requires i < j < |t| && StartsOrdered(t) && t[i].addr >= t[j].addr
    ensures var t' := t[i := t[j]][j := t[i]];
            StartsOrdered(t') && multiset(t') == multiset(t)
  {
    var t' := t[i := t[j]][j := t[i]];
    assert forall k :: 0 <= k < |t| ==> t'[k].addr == t[k].addr;
  }

  /** Two entries that spoil the ends stand in the wrong order in some table that qsort may
      leave. */
  lemma {:induction false} Misfit(u: seq<Symbol>, a: Symbol, b: Symbol) returns (t: seq<Symbol>)
    requires Comparable(u) && a in u && b in u && a.addr <= b.addr && a.addr + a.size > b.addr + b.size
    ensures QSorted(t, u) && !Ordered(t)
  {
    t := SortByStart(u);
    SortExists(u);
    SameEntries(t, u, a);
    SameEntries(t, u, b);
    var i :| 0 <= i < |t| && t[i] == a;
    var j :| 0 <= j < |t| && t[j] == b;
    if i > j {
      SwapSameStart(t, j, i);
      t := t[j := a][i := b];
      i, j := j, i;
    }
    SortedByStarts(t, u);
    assert t[i] == a && t[j] == b;
  }

  /** With a right comparison, every table that qsort may leave is searched completely if and
      only if entries that start together have the same size and no later start has an earlier
      end. */
  lemma {:induction false} CompleteFiles(u: seq<Symbol>)
    requires Comparable(u)
    ensures (forall t :: QSorted(t, u) ==> Complete(t)) <==> EndsFit(u)
  {
    forall t | QSorted(t, u)
      ensures Complete(t) <==> Ordered(t)
    {
      SortedByStarts(t, u);
      CompleteExactly(t);
    }
    if EndsFit(u) {
      forall t | QSorted(t, u)
        ensures Complete(t)
      {
        FitIsOrdered(t, u);
      }
    } else {
      var a, b :| a in u && b in u && a.addr <= b.addr &&
                  !(a.addr + a.size <= b.addr + b.size && (a.addr == b.addr ==> a.size == b.size));
      var t;
      if a.addr + a.size > b.addr + b.size {
        t := Misfit(u, a, b);
      } else {
        t := Misfit(u, b, a);
      }
    }
  }

  // ----- where it fails -----

  /** Two entries are sorted in one order or the other. */
  lemma {:induction false} SortedPair(t: seq<Symbol>, a: Symbol, b: Symbol)
    ensures QSorted(t, [a, b]) <==>
            (t == [a, b] && QCompare(a, b) <= 0) || (t == [b, a] && QCompare(b, a) <= 0)
  {
    if multiset(t) == multiset([a, b]) {
      assert |t| == |multiset(t)| == 2;
      assert t == [t[0], t[1]];
      assert multiset(t) == multiset{t[0], t[1]} == multiset{a, b};
      assert t[0] in multiset{a, b} && t[1] in multiset{a, b} && a in multiset(t) && b in multiset(t);
    }
    assert multiset([b, a]) == multiset([a, b]);
  }

  /** An empty symbol at the start of another one: qsort may leave either order, and one of
      them hides the larger symbol. */
  lemma {:induction false} AliasHides()
    ensures var f, alias := Symbol(0x100, 0x10, "f"), Symbol(0x100, 0, "alias");
            && QSorted([f, alias], [f, alias]) && Found(Some([f, alias]), 0x105, false).None?
            && QSorted([alias, f], [f, alias]) && Found(Some([alias, f]), 0x105, false) == Some(f)
  {
    var f, alias := Symbol(0x100, 0x10, "f"), Symbol(0x100, 0, "alias");
    SortedPair([f, alias], f, alias);
    SortedPair([alias, f], f, alias);
  }

  /** A symbol inside another one hides the part of the larger that follows it, in the only
      order that qsort can leave. */
  lemma {:induction false} NestedHides(t: seq<Symbol>)
    requires QSorted(t, [Symbol(0x100, 0x100, "outer"), Symbol(0x120, 0x10, "inner")])
    ensures t[0] == Symbol(0x100, 0x100, "outer") && Covers(t[0], 0x180) && Found(Some(t), 0x180, false).None?
  {
    SortedPair(t, Symbol(0x100, 0x100, "outer"), Symbol(0x120, 0x10, "inner"));
  }

  /** Two symbols that do not overlap, too far apart for the comparison: the only order that
      qsort can leave is the wrong one, and the higher symbol is never found. */
  lemma {:induction false} FarSymbols(t: seq<Symbol>)
    requires QSorted(t, [Symbol(0x1000, 0x10, "low"), Symbol(0x1_C000_1000, 0x10, "high")])
    ensures t == [Symbol(0x1_C000_1000, 0x10, "high"), Symbol(0x1000, 0x10, "low")]
    ensures Covers(t[0], 0x1_C000_1008) && Found(Some(t), 0x1_C000_1008, true).None?
  {
    SortedPair(t, Symbol(0x1000, 0x10, "low"), Symbol(0x1_C000_1000, 0x10, "high"));
  }
}
