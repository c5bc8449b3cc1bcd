/** The parts of an ELF image that so_resolve, so_excute_init_array and so_find_addr read:
    section headers and their names in the temporary copy of the file, relocation, symbol and
    string tables in the loaded image, which is the same memory the relocations patch. */
module Elf {
  import opened Memory
  import opened Options
  import opened Imports
  import opened Relocs

  /** Where the tables are.  The first two lines describe the temporary copy of the file, at
      elf, and the loaded image, at base; the rest are the globals that so_load sets. */
  datatype Image = Image(
    elf: word, fileSize: nat,
    base: word, size: nat,
    sections: word, names: word,
    syms: word, numSyms: nat, dynstr: word, dynstrSize: nat)

  /* Section headers (40 bytes each) */

  function SectionCount(m: Mem, v: Image): nat { Half(m, v.elf + 48) }

  function SectionHeader(v: Image, i: int): int { v.sections + 40 * i }

  function SectionNameAt(m: Mem, v: Image, i: int): int { v.names + Word(m, SectionHeader(v, i)) }

  function SectionName(m: Mem, v: Image, i: int): string { CString(m, SectionNameAt(m, v, i)) }

  function SectionAddr(m: Mem, v: Image, i: int): word { Add(v.base, Word(m, SectionHeader(v, i) + 12)) }

  function SectionSize(m: Mem, v: Image, i: int): word { Word(m, SectionHeader(v, i) + 20) }

  predicate IsRelName(name: string) {
    name == ".rel.dyn" || name == ".rel.plt"
  }

  predicate IsRelSection(m: Mem, v: Image, i: int) {
    IsRelName(SectionName(m, v, i))
  }

  /* Symbols (16 bytes each) */

  function SymAt(v: Image, k: int): int { v.syms + 16 * k }

  function SymNameAt(m: Mem, v: Image, k: int): int { v.dynstr + Word(m, SymAt(v, k)) }

  function SymName(m: Mem, v: Image, k: int): string { CString(m, SymNameAt(m, v, k)) }

  function SymValue(m: Mem, v: Image, k: int): word { Word(m, SymAt(v, k) + 4) }

  predicate SymDefined(m: Mem, v: Image, k: int) { Half(m, SymAt(v, k) + 14) != 0 }

  /* Relocation entries (8 bytes each) */

  const R_ARM_ABS32 := 2
  const R_ARM_GLOB_DAT := 21
  const R_ARM_JUMP_SLOT := 22
  const R_ARM_RELATIVE := 23

  predicate IsSlotType(kind: int) {
    kind == R_ARM_GLOB_DAT || kind == R_ARM_JUMP_SLOT
  }

  predicate UsesSymbol(kind: int) {
    kind == R_ARM_ABS32 || IsSlotType(kind)
  }

  /** What an undefined symbol resolves to: the first import of that name, or the slot's own
      offset, chosen to crash recognisably. */
  function ImportValue(fs: seq<DynLibFunction>, name: string, offset: word): word {
    match Bound(fs, name)
    case Some(func) => func
    case None => offset
  }

  function Decode(m: Mem, v: Image, fs: seq<DynLibFunction>, offset: word, info: word): Reloc {
    var sym, kind := info / 0x100, info % 0x100;
    if kind == R_ARM_ABS32 then AddBase(offset, SymValue(m, v, sym))
    else if kind == R_ARM_RELATIVE then AddBase(offset, 0)
    else if IsSlotType(kind) then
      if SymDefined(m, v, sym) then SetBase(offset, SymValue(m, v, sym))
      else SetImport(offset, ImportValue(fs, SymName(m, v, sym), offset))
    else Ignored(offset)
  }

  function EntryAt(m: Mem, v: Image, i: int, j: int): int { SectionAddr(m, v, i) + 8 * j }

  function Entry(m: Mem, v: Image, fs: seq<DynLibFunction>, i: int, j: int): Reloc {
    Decode(m, v, fs, Word(m, EntryAt(m, v, i, j)), Word(m, EntryAt(m, v, i, j) + 4))
  }

  function EntryCount(m: Mem, v: Image, i: int): (n: nat) {
    if IsRelSection(m, v, i) then SectionSize(m, v, i) / 8 else 0
  }

  /** The first n entries of section i. */
  function SectionRelocs(m: Mem, v: Image, fs: seq<DynLibFunction>, i: int, n: nat): (rs: seq<Reloc>)
    ensures |rs| == n
    ensures forall j | 0 <= j < n :: rs[j] == Entry(m, v, fs, i, j)
  {
    if n == 0 then [] else SectionRelocs(m, v, fs, i, n - 1) + [Entry(m, v, fs, i, n - 1)]
  }

  /** The entries of the first n sections, in the order in which so_resolve visits them. */
  function RelocsUpTo(m: Mem, v: Image, fs: seq<DynLibFunction>, n: nat): (rs: seq<Reloc>) {
    if n == 0 then []
    else RelocsUpTo(m, v, fs, n - 1) + SectionRelocs(m, v, fs, n - 1, EntryCount(m, v, n - 1))
  }

  function AllRelocs(m: Mem, v: Image, fs: seq<DynLibFunction>): seq<Reloc> {
    RelocsUpTo(m, v, fs, SectionCount(m, v))
  }

  lemma {:induction false} EntryIsReloc(m: Mem, v: Image, fs: seq<DynLibFunction>, n: nat, i: int, j: int)
    requires 0 <= i < n && 0 <= j < EntryCount(m, v, i)
    ensures Entry(m, v, fs, i, j) in RelocsUpTo(m, v, fs, n)
  {
    hide Entry, EntryCount;
    if i < n - 1 {
      EntryIsReloc(m, v, fs, n - 1, i, j);
    } else {
      assert Entry(m, v, fs, i, j) == SectionRelocs(m, v, fs, i, EntryCount(m, v, i))[j];
    }
  }

  /** The sections named .rel.dyn and .rel.plt hold entries of 8 bytes; no other section does. */
  lemma EntryCountIs(m: Mem, v: Image, i: int)
    ensures SectionName(m, v, i) == ".rel.dyn" || SectionName(m, v, i) == ".rel.plt" ==>
              8 * EntryCount(m, v, i) <= SectionSize(m, v, i) < 8 * EntryCount(m, v, i) + 8
    ensures SectionName(m, v, i) != ".rel.dyn" && SectionName(m, v, i) != ".rel.plt" ==> EntryCount(m, v, i) == 0
  {
  }

  /** How many entries there are before section n. */
  function RelocsBefore(m: Mem, v: Image, n: nat): nat {
    if n == 0 then 0 else RelocsBefore(m, v, n - 1) + EntryCount(m, v, n - 1)
  }

  /** Every entry is listed once, in its place: after all entries of earlier sections and the earlier
      entries of its own. */
  lemma {:induction false} RelocAt(m: Mem, v: Image, fs: seq<DynLibFunction>, n: nat, i: nat, j: nat)
    requires i < n && j < EntryCount(m, v, i)
    ensures |RelocsUpTo(m, v, fs, n)| == RelocsBefore(m, v, n)
    ensures RelocsBefore(m, v, i) + j < RelocsBefore(m, v, n)
    ensures RelocsUpTo(m, v, fs, n)[RelocsBefore(m, v, i) + j] == Entry(m, v, fs, i, j)
  {
    hide Entry, EntryCount;
    RelocsCount(m, v, fs, n - 1);
    if i < n - 1 {
      RelocAt(m, v, fs, n - 1, i, j);
    }
  }

  lemma {:induction false} RelocsCount(m: Mem, v: Image, fs: seq<DynLibFunction>, n: nat)
    ensures |RelocsUpTo(m, v, fs, n)| == RelocsBefore(m, v, n)
  {
    hide Entry, EntryCount;
    if n > 0 {
      RelocsCount(m, v, fs, n - 1);
    }
  }

  /** Entries of the types that so_resolve does not know write nothing. */
  lemma OtherTypes(m: Mem, v: Image, fs: seq<DynLibFunction>, i: int, j: int)
    requires Word(m, EntryAt(m, v, i, j) + 4) % 0x100 !in {2, 21, 22, 23}
    ensures !Entry(m, v, fs, i, j).Writes()
  {
    hide Word, Half, CString;
  }

  /* Well-formed files */

  /** The C string at a ends, with its NUL, before hi. */
  predicate StringIn(m: Mem, a: int, lo: int, hi: int) {
    lo <= a && a + |CString(m, a)| < hi
  }

  /** The symbol table lies inside the image and its names are terminated inside the string table. */
  ghost predicate SymbolTableOk(m: Mem, v: Image) {
    && |m| == SPACE && v.base + v.size <= SPACE
    && v.base <= v.syms && SymAt(v, v.numSyms) <= v.base + v.size
    && v.base <= v.dynstr && v.dynstr + v.dynstrSize <= v.base + v.size
    && forall k | 0 <= k < v.numSyms :: StringIn(m, SymNameAt(m, v, k), v.dynstr, v.dynstr + v.dynstrSize)
  }

  /** Sections that so_resolve and so_excute_init_array look into. */
  predicate IsLoadedSection(m: Mem, v: Image, i: int) {
    IsRelSection(m, v, i) || SectionName(m, v, i) == ".init_array"
  }

  /** The section headers and their names lie inside the file copy, which is clear of the image,
      and the sections of interest inside the image. */
  ghost predicate SectionsOk(m: Mem, v: Image) {
    && |m| == SPACE && v.base + v.size <= SPACE
    && 52 <= v.fileSize && v.elf + v.fileSize <= SPACE
    && (v.elf + v.fileSize <= v.base || v.base + v.size <= v.elf)
    && v.elf <= v.sections && SectionHeader(v, SectionCount(m, v)) <= v.elf + v.fileSize
    && (forall i | 0 <= i < SectionCount(m, v) ::
          StringIn(m, SectionNameAt(m, v, i), v.elf, v.elf + v.fileSize))
    && (forall i | 0 <= i < SectionCount(m, v) && IsLoadedSection(m, v, i) ::
          Word(m, SectionHeader(v, i) + 12) + SectionSize(m, v, i) <= v.size)
  }

  ghost predicate WellFormed(m: Mem, v: Image) {
    SectionsOk(m, v) && SymbolTableOk(m, v)
  }

  /** Entries whose type uses a symbol name one of the table. */
  ghost predicate SymbolsExist(m: Mem, v: Image) {
    forall i, j | 0 <= i < SectionCount(m, v) && 0 <= j < EntryCount(m, v, i) ::
      SymbolExists(v, Word(m, EntryAt(m, v, i, j) + 4))
  }

  predicate SymbolExists(v: Image, info: word) {
    UsesSymbol(info % 0x100) ==> info / 0x100 < v.numSyms
  }

  /** Bytes that relocation must not change: the file copy and the tables inside the image. */
  ghost predicate Protected(m: Mem, v: Image, x: int) {
    || v.elf <= x < v.elf + v.fileSize
    || v.syms <= x < SymAt(v, v.numSyms)
    || v.dynstr <= x < v.dynstr + v.dynstrSize
    || exists i :: 0 <= i < SectionCount(m, v) && IsRelSection(m, v, i)
                   && SectionAddr(m, v, i) <= x < SectionAddr(m, v, i) + SectionSize(m, v, i)
  }

  /** Targets are words of the image and share no byte with the tables. */
  ghost predicate TargetsClear(m: Mem, v: Image, rs: seq<Reloc>) {
    forall r | r in rs && r.Writes() ::
      r.offset + 4 <= v.size && forall x | r.Covers(v.base, x) :: !Protected(m, v, x)
  }

  ghost predicate SameTables(m: Mem, n: Mem, v: Image) {
    |m| == |n| && forall x | Protected(m, v, x) :: Byte(m, x) == Byte(n, x)
  }

  /** The file copy is the same. */
  ghost predicate SameCopy(m: Mem, n: Mem, v: Image) {
    |m| == |n| && forall x | v.elf <= x < v.elf + v.fileSize :: Byte(m, x) == Byte(n, x)
  }

  predicate InSymbols(v: Image, x: int) {
    v.syms <= x < SymAt(v, v.numSyms) || v.dynstr <= x < v.dynstr + v.dynstrSize
  }

  /** The symbol and string tables are the same. */
  ghost predicate SameSymbols(m: Mem, n: Mem, v: Image) {
    |m| == |n| && forall x | InSymbols(v, x) :: Byte(m, x) == Byte(n, x)
  }

  lemma TablesAreParts(m: Mem, n: Mem, v: Image)
    requires SameTables(m, n, v)
    ensures SameCopy(m, n, v) && SameSymbols(m, n, v)
  {
    hide Byte;
    assert forall x | v.elf <= x < v.elf + v.fileSize || InSymbols(v, x) :: Protected(m, v, x);
  }

  /* Reading the tables from a memory that has changed elsewhere */

  lemma SameSection(m: Mem, n: Mem, v: Image, i: int)
    requires SectionsOk(m, v) && SameCopy(m, n, v) && 0 <= i < SectionCount(m, v)
    ensures SectionName(n, v, i) == SectionName(m, v, i) && SectionNameAt(n, v, i) == SectionNameAt(m, v, i)
    ensures SectionAddr(n, v, i) == SectionAddr(m, v, i) && SectionSize(n, v, i) == SectionSize(m, v, i)
  {
    SameWord(m, n, SectionHeader(v, i));
    SameWord(m, n, SectionHeader(v, i) + 12);
    SameWord(m, n, SectionHeader(v, i) + 20);
    assert StringIn(m, SectionNameAt(m, v, i), v.elf, v.elf + v.fileSize);
    SameString(m, n, SectionNameAt(m, v, i));
  }

  lemma SameCount(m: Mem, n: Mem, v: Image)
    requires SectionsOk(m, v) && SameCopy(m, n, v)
    ensures SectionCount(n, v) == SectionCount(m, v)
  {
    assert Byte(m, v.elf + 48) == Byte(n, v.elf + 48) && Byte(m, v.elf + 49) == Byte(n, v.elf + 49);
  }

  lemma SameSym(m: Mem, n: Mem, v: Image, k: int)
    requires SymbolTableOk(m, v) && SameSymbols(m, n, v) && 0 <= k < v.numSyms
    ensures SymName(n, v, k) == SymName(m, v, k) && SymNameAt(n, v, k) == SymNameAt(m, v, k)
    ensures SymValue(n, v, k) == SymValue(m, v, k) && SymDefined(n, v, k) == SymDefined(m, v, k)
  {
    SameWord(m, n, SymAt(v, k));
    SameWord(m, n, SymAt(v, k) + 4);
    SameWord(m, n, SymAt(v, k) + 12);
    assert StringIn(m, SymNameAt(m, v, k), v.dynstr, v.dynstr + v.dynstrSize);
    SameString(m, n, SymNameAt(m, v, k));
  }

  lemma EntryInTable(m: Mem, v: Image, i: int, j: int)
    requires WellFormed(m, v) && 0 <= i < SectionCount(m, v) && 0 <= j < EntryCount(m, v, i)
    ensures v.base <= EntryAt(m, v, i, j) && EntryAt(m, v, i, j) + 8 <= v.base + v.size
    ensures forall x | EntryAt(m, v, i, j) <= x < EntryAt(m, v, i, j) + 8 :: Protected(m, v, x)
  {
    assert IsRelSection(m, v, i);
    assert SectionAddr(m, v, i) == v.base + Word(m, SectionHeader(v, i) + 12);
  }

  lemma SameDecode(m: Mem, n: Mem, v: Image, fs: seq<DynLibFunction>, offset: word, info: word)
    requires SymbolTableOk(m, v) && SameSymbols(m, n, v)
    requires UsesSymbol(info % 0x100) ==> info / 0x100 < v.numSyms
    ensures Decode(n, v, fs, offset, info) == Decode(m, v, fs, offset, info)
  {
    if UsesSymbol(info % 0x100) {
      SameSym(m, n, v, info / 0x100);
    }
  }

  lemma SameEntry(m: Mem, n: Mem, v: Image, fs: seq<DynLibFunction>, i: int, j: int)
    requires WellFormed(m, v) && SymbolsExist(m, v) && SameTables(m, n, v)
    requires 0 <= i < SectionCount(m, v) && 0 <= j < EntryCount(m, v, i)
    ensures Entry(n, v, fs, i, j) == Entry(m, v, fs, i, j) && EntryAt(n, v, i, j) == EntryAt(m, v, i, j)
    ensures Word(n, EntryAt(n, v, i, j)) == Word(m, EntryAt(m, v, i, j))
    ensures Word(n, EntryAt(n, v, i, j) + 4) == Word(m, EntryAt(m, v, i, j) + 4)
  {
    hide Word, Half, Byte, CString, Decode, Protected, SectionsOk, SymbolTableOk, SameTables, SectionSize, SectionName;
    TablesAreParts(m, n, v);
    SameSection(m, n, v, i);
    var a := EntryAt(m, v, i, j);
    assert EntryAt(n, v, i, j) == a;
    EntryInTable(m, v, i, j);
    ProtectedWord(m, n, v, a);
    ProtectedWord(m, n, v, a + 4);
    assert SymbolExists(v, Word(m, a + 4));
    SameDecode(m, n, v, fs, Word(m, a), Word(m, a + 4));
  }

  lemma ProtectedWord(m: Mem, n: Mem, v: Image, a: int)
    requires SameTables(m, n, v) && forall x | a <= x < a + 4 :: Protected(m, v, x)
    ensures Word(m, a) == Word(n, a)
  {
    hide Byte, Protected;
    SameWord(m, n, a);
  }

  /** Relocations that keep clear of the tables leave every table as it was. */
  lemma {:induction false} RelocationKeepsTables(m: Mem, v: Image, rs: seq<Reloc>)
    requires TargetsClear(m, v, rs)
    ensures SameTables(m, ApplyAll(m, v.base, rs), v)
  {
    forall x | Protected(m, v, x)
      ensures Byte(m, x) == Byte(ApplyAll(m, v.base, rs), x)
    {
      Untouched(m, v.base, rs, x);
    }
  }

  lemma ClearTargetsFit(m: Mem, v: Image, rs: seq<Reloc>)
    requires WellFormed(m, v) && TargetsClear(m, v, rs)
    ensures AllFit(v.base, rs)
    ensures forall r | r in rs && r.Writes() :: r.Target(v.base) == v.base + r.offset
  {
  }

  lemma SectionsStable(m: Mem, n: Mem, v: Image)
    requires SectionsOk(m, v) && SameCopy(m, n, v)
    ensures SectionsOk(n, v)
  {
    hide Word, Half, Byte, CString, SectionHeader, SectionSize;
    SameCount(m, n, v);
    forall i | 0 <= i < SectionCount(m, v)
      ensures StringIn(n, SectionNameAt(n, v, i), v.elf, v.elf + v.fileSize)
      ensures IsLoadedSection(n, v, i) ==> Word(n, SectionHeader(v, i) + 12) + SectionSize(n, v, i) <= v.size
    {
      assert StringIn(m, SectionNameAt(m, v, i), v.elf, v.elf + v.fileSize);
      SameSection(m, n, v, i);
      assert IsLoadedSection(n, v, i) == IsLoadedSection(m, v, i);
    }
  }

  lemma SymbolsStable(m: Mem, n: Mem, v: Image)
    requires SymbolTableOk(m, v) && SameSymbols(m, n, v)
    ensures SymbolTableOk(n, v)
  {
    hide Word, Half, Byte, CString;
    forall k | 0 <= k < v.numSyms
      ensures StringIn(n, SymNameAt(n, v, k), v.dynstr, v.dynstr + v.dynstrSize)
    {
      assert StringIn(m, SymNameAt(m, v, k), v.dynstr, v.dynstr + v.dynstrSize);
      SameSym(m, n, v, k);
    }
  }

  /* The import table does not change which words are relocated */

  ghost predicate SameShape(rs: seq<Reloc>, qs: seq<Reloc>) {
    |rs| == |qs| && forall k | 0 <= k < |rs| :: rs[k].offset == qs[k].offset && rs[k].Writes() == qs[k].Writes()
  }

  lemma {:induction false} SectionShape(m: Mem, v: Image, fs: seq<DynLibFunction>, gs: seq<DynLibFunction>,
                                        i: int, n: nat)
    ensures SameShape(SectionRelocs(m, v, fs, i, n), SectionRelocs(m, v, gs, i, n))
  {
    hide Word, Half, CString, SectionAddr;
  }

  lemma {:induction false} ShapeIndependent(m: Mem, v: Image, fs: seq<DynLibFunction>, gs: seq<DynLibFunction>, n: nat)
    ensures SameShape(RelocsUpTo(m, v, fs, n), RelocsUpTo(m, v, gs, n))
  {
    hide Word, Half, CString, Entry, EntryCount;
    if n > 0 {
      ShapeIndependent(m, v, fs, gs, n - 1);
      SectionShape(m, v, fs, gs, n - 1, EntryCount(m, v, n - 1));
    }
  }

  /** So clear and disjoint targets may be asked of the image for any table. */
  lemma ClearForAnyTable(m: Mem, v: Image, fs: seq<DynLibFunction>, gs: seq<DynLibFunction>)
    requires TargetsClear(m, v, AllRelocs(m, v, fs)) && Disjoint(v.base, AllRelocs(m, v, fs))
    ensures TargetsClear(m, v, AllRelocs(m, v, gs)) && Disjoint(v.base, AllRelocs(m, v, gs))
  {
    hide Word, Half, CString, Protected, RelocsUpTo;
    ShapeIndependent(m, v, fs, gs, SectionCount(m, v));
    var rs, qs := AllRelocs(m, v, fs), AllRelocs(m, v, gs);
    forall q | q in qs && q.Writes()
      ensures q.offset + 4 <= v.size && forall x | q.Covers(v.base, x) :: !Protected(m, v, x)
    {
      var k :| 0 <= k < |qs| && qs[k] == q;
      assert rs[k] in rs && rs[k].Writes();
      assert forall x :: q.Covers(v.base, x) <==> rs[k].Covers(v.base, x);
    }
    forall i, j | 0 <= i < j < |qs|
      ensures Apart(v.base, qs[i], qs[j])
    {
      assert Apart(v.base, rs[i], rs[j]);
    }
  }

  /* Symbol lookup */

  /** The first symbol of a name among symbols k and later, or -1. */
  function FindSym(m: Mem, v: Image, name: string, k: nat): (r: int)
    ensures -1 <= r < v.numSyms
    ensures r >= 0 ==> k <= r && SymName(m, v, r) == name
    ensures forall i | k <= i < (if r < 0 then v.numSyms else r) :: SymName(m, v, i) != name
    decreases v.numSyms - k
  {
    if k >= v.numSyms then -1
    else if SymName(m, v, k) == name then k
    else FindSym(m, v, name, k + 1)
  }

  /** What so_find_addr returns; None is its fatal error. */
  function FindAddr(m: Mem, v: Image, name: string): Option<word> {
    var k := FindSym(m, v, name, 0);
    if k < 0 then None else Some(Add(v.base, SymValue(m, v, k)))
  }

  /** Symbol k is the first of the name. */
  ghost predicate IsFirst(m: Mem, v: Image, name: string, k: int) {
    0 <= k < v.numSyms && SymName(m, v, k) == name && forall i | 0 <= i < k :: SymName(m, v, i) != name
  }

  /** The answer is the address of the first symbol of the name, and there is one exactly if there is a
      symbol of the name. */
  lemma FindAddrIs(m: Mem, v: Image, name: string)
    ensures FindAddr(m, v, name) == None <==> forall k | 0 <= k < v.numSyms :: SymName(m, v, k) != name
    ensures forall k | IsFirst(m, v, name, k) :: FindAddr(m, v, name) == Some(Add(v.base, SymValue(m, v, k)))
  {
    hide SymName, SymValue, Add;
    var r := FindSym(m, v, name, 0);
    forall k | IsFirst(m, v, name, k)
      ensures FindAddr(m, v, name) == Some(Add(v.base, SymValue(m, v, k)))
    {
      FindSymUnique(m, v, name, k);
    }
  }

  lemma FindSymUnique(m: Mem, v: Image, name: string, k: int)
    requires 0 <= k < v.numSyms && SymName(m, v, k) == name
    requires forall i | 0 <= i < k :: SymName(m, v, i) != name
    ensures FindSym(m, v, name, 0) == k
  {
  }

  /** Lookups depend on the symbol and string tables only: they answer the same after
      relocation, after hooking and after the file copy is gone. */
  lemma LookupStable(m: Mem, n: Mem, v: Image, name: string)
    requires SymbolTableOk(m, v) && SameSymbols(m, n, v)
    ensures FindAddr(n, v, name) == FindAddr(m, v, name)
  {
    forall k | 0 <= k < v.numSyms
      ensures SymName(n, v, k) == SymName(m, v, k) && SymValue(n, v, k) == SymValue(m, v, k)
    {
      SameSym(m, n, v, k);
    }
    var k := FindSym(m, v, name, 0);
    if k >= 0 {
      FindSymUnique(n, v, name, k);
    } else {
      assert FindSym(n, v, name, 0) == -1;
    }
  }
}
