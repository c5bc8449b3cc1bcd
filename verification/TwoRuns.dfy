/** Relocating one image at two load addresses. */
module TwoRuns {
  import opened Memory
  import opened Imports
  import opened Relocs
  import opened Elf
  import opened ElfFile
  import opened LoadedImage

  /** From a on, m reads as m' reads from b on, for n bytes. */
  ghost predicate Shifted(m: Mem, a: int, m': Mem, b: int, n: int) {
    forall x | a <= x < a + n :: Byte(m, x) == Byte(m', x + (b - a))
  }

  /** Section i has the same name, link-time address and size, and, if it holds relocations, the same
      bytes. */
  ghost predicate SameSectionAt(m: Mem, v: Image, m': Mem, v': Image, i: int) {
    && SectionName(m, v, i) == SectionName(m', v', i)
    && Word(m, SectionHeader(v, i) + 12) == Word(m', SectionHeader(v', i) + 12)
    && SectionSize(m, v, i) == SectionSize(m', v', i)
    && (IsRelSection(m, v, i) ==>
          Shifted(m, SectionAddr(m, v, i), m', SectionAddr(m', v', i), SectionSize(m, v, i)))
  }

  /** What so_resolve reads of the tables is the same in both runs.  The rest of the file copies and of
      the images may differ, as it does: so_load leaves the load address in the program headers. */
  ghost predicate SameReads(m: Mem, v: Image, m': Mem, v': Image) {
    && WellFormed(m, v) && WellFormed(m', v') && SymbolsExist(m, v)
    && v.size == v'.size && v.numSyms == v'.numSyms && v.dynstrSize == v'.dynstrSize
    && v.syms - v.base == v'.syms - v'.base && v.dynstr - v.base == v'.dynstr - v'.base
    && SectionCount(m, v) == SectionCount(m', v')
    && (forall i | 0 <= i < SectionCount(m, v) :: SameSectionAt(m, v, m', v', i))
    && Shifted(m, v.syms, m', v'.syms, 16 * v.numSyms) && Shifted(m, v.dynstr, m', v'.dynstr, v.dynstrSize)
  }

  /** And so are the words that relocation writes. */
  ghost predicate SameTargets(m: Mem, v: Image, m': Mem, v': Image, rs: seq<Reloc>) {
    forall r | r in rs && r.Writes() :: Word(m, v.base + r.offset) == Word(m', v'.base + r.offset)
  }

  lemma ShiftedWord(m: Mem, a: int, m': Mem, b: int, n: int, x: int, y: int)
    requires Shifted(m, a, m', b, n) && a <= x && x + 4 <= a + n && y == x + (b - a)
    ensures Word(m, x) == Word(m', y) && Half(m, x) == Half(m', y) && Half(m, x + 2) == Half(m', y + 2)
  {
    assert Byte(m, x) == Byte(m', y) && Byte(m, x + 1) == Byte(m', x + 1 + (b - a));
    assert Byte(m, x + 2) == Byte(m', x + 2 + (b - a)) && Byte(m, x + 3) == Byte(m', x + 3 + (b - a));
  }

  lemma ShiftedName(m: Mem, a: int, m': Mem, b: int, n: int, x: int, y: int)
    requires Shifted(m, a, m', b, n) && StringIn(m, x, a, a + n) && y == x + (b - a)
    requires |m| == SPACE && |m'| == SPACE && 0 <= a && a + n <= SPACE && 0 <= b && b + n <= SPACE
    ensures CString(m, x) == CString(m', y)
  {
    hide Byte;
    ShiftedString(m, x, m', y);
  }

  lemma SameDecodeOf(m: Mem, v: Image, m': Mem, v': Image, fs: seq<DynLibFunction>, offset: word, info: word)
    requires SameReads(m, v, m', v') && SymbolExists(v, info)
    ensures Decode(m, v, fs, offset, info) == Decode(m', v', fs, offset, info)
  {
    hide Word, Half, CString, Byte, SectionsOk, Shifted, SymbolsExist, SameSectionAt;
    if UsesSymbol(info % 0x100) {
      var k := info / 0x100;
      var s, s' := SymAt(v, k), SymAt(v', k);
      ShiftedWord(m, v.syms, m', v'.syms, 16 * v.numSyms, s, s');
      ShiftedWord(m, v.syms, m', v'.syms, 16 * v.numSyms, s + 4, s' + 4);
      ShiftedWord(m, v.syms, m', v'.syms, 16 * v.numSyms, s + 12, s' + 12);
      assert StringIn(m, SymNameAt(m, v, k), v.dynstr, v.dynstr + v.dynstrSize);
      ShiftedName(m, v.dynstr, m', v'.dynstr, v.dynstrSize, SymNameAt(m, v, k), SymNameAt(m', v', k));
    }
  }

  lemma SameEntryOf(m: Mem, v: Image, m': Mem, v': Image, fs: seq<DynLibFunction>, i: int, j: int)
    requires SameReads(m, v, m', v') && 0 <= i < SectionCount(m, v) && 0 <= j < EntryCount(m, v, i)
    ensures Entry(m, v, fs, i, j) == Entry(m', v', fs, i, j)
  {
    hide Word, Half, CString, Byte, SymbolTableOk, Shifted, Decode, SectionsOk, SymbolExists, SectionAddr;
    assert SameSectionAt(m, v, m', v', i);
    var s, s' := SectionAddr(m, v, i), SectionAddr(m', v', i);
    var a, a' := EntryAt(m, v, i, j), EntryAt(m', v', i, j);
    ShiftedWord(m, s, m', s', SectionSize(m, v, i), a, a');
    ShiftedWord(m, s, m', s', SectionSize(m, v, i), a + 4, a' + 4);
    assert SymbolExists(v, Word(m, a + 4));
    SameDecodeOf(m, v, m', v', fs, Word(m, a), Word(m, a + 4));
  }

  lemma SameEntryCount(m: Mem, v: Image, m': Mem, v': Image, i: int)
    requires SameReads(m, v, m', v') && 0 <= i < SectionCount(m, v)
    ensures EntryCount(m, v, i) == EntryCount(m', v', i)
  {
    assert SameSectionAt(m, v, m', v', i);
  }

  lemma {:induction false} SameSectionRelocs(m: Mem, v: Image, m': Mem, v': Image, fs: seq<DynLibFunction>,
                                             i: int, n: nat)
    requires SameReads(m, v, m', v') && 0 <= i < SectionCount(m, v) && n <= EntryCount(m, v, i)
    ensures SectionRelocs(m, v, fs, i, n) == SectionRelocs(m', v', fs, i, n)
  {
    hide SameReads, Entry, EntryCount, SectionCount;
    if n > 0 {
      SameSectionRelocs(m, v, m', v', fs, i, n - 1);
      SameEntryOf(m, v, m', v', fs, i, n - 1);
    }
  }

  lemma {:induction false} SameRelocsUpTo(m: Mem, v: Image, m': Mem, v': Image, fs: seq<DynLibFunction>, n: nat)
    requires SameReads(m, v, m', v') && n <= SectionCount(m, v)
    ensures RelocsUpTo(m, v, fs, n) == RelocsUpTo(m', v', fs, n)
  {
    hide SameReads, SectionRelocs, EntryCount, SectionCount;
    if n > 0 {
      SameRelocsUpTo(m, v, m', v', fs, n - 1);
      SameEntryCount(m, v, m', v', n - 1);
      SameSectionRelocs(m, v, m', v', fs, n - 1, EntryCount(m, v, n - 1));
    }
  }

  /** The outcome at base' compared with that at base: target words that hold addresses of the image
      differ by exactly the difference of the bases mod 2^32, all others agree, imports and unresolved
      slots included. */
  ghost predicate MovedBy(n: Mem, base: word, n': Mem, base': word, rs: seq<Reloc>) {
    forall r | r in rs && r.Writes() ::
      Word(n', base' + r.offset) == Add(Word(n, base + r.offset), if MovesWithBase(r) then base' - base else 0)
  }

  /** Relocation changes nothing but the targets. */
  ghost predicate OnlyTargets(m: Mem, n: Mem, base: word, rs: seq<Reloc>) {
    forall x | (forall r | r in rs :: !r.Covers(base, x)) :: Byte(n, x) == Byte(m, x)
  }

  /** Two runs of so_resolve that read the same tables and the same target words decode the same
      relocations and leave target words that moved with the base.  Nothing else changes in either. */
  lemma {:induction false} TwoBases(m: Mem, v: Image, m': Mem, v': Image, fs: seq<DynLibFunction>)
    requires SameReads(m, v, m', v') && SameTargets(m, v, m', v', AllRelocs(m, v, fs))
    requires TargetsClear(m, v, AllRelocs(m, v, fs)) && Disjoint(v.base, AllRelocs(m, v, fs))
    ensures AllRelocs(m', v', fs) == AllRelocs(m, v, fs)
    ensures var rs := AllRelocs(m, v, fs);
            var n, n' := ApplyAll(m, v.base, rs), ApplyAll(m', v'.base, rs);
            MovedBy(n, v.base, n', v'.base, rs) && OnlyTargets(m, n, v.base, rs) && OnlyTargets(m', n', v'.base, rs)
  {
    hide Word, Half, Byte, CString, Add, Decode, Protected, ApplyAll, RelocsUpTo, Shifted, SymbolsExist, SameSectionAt;
    SameRelocsUpTo(m, v, m', v', fs, SectionCount(m, v));
    var rs := AllRelocs(m, v, fs);
    TargetsPlace(m, v, m', v', rs);
    forall r | r in rs && r.Writes()
      ensures Word(ApplyAll(m', v'.base, rs), v'.base + r.offset) ==
              Add(Word(ApplyAll(m, v.base, rs), v.base + r.offset), if MovesWithBase(r) then v'.base - v.base else 0)
    {
      var k :| 0 <= k < |rs| && rs[k] == r;
      BaseEquivariance(m, v.base, m', v'.base, rs, k);
    }
    TargetsOnly(m, v.base, rs);
    TargetsOnly(m', v'.base, rs);
  }

  lemma TargetsOnly(m: Mem, base: word, rs: seq<Reloc>)
    ensures OnlyTargets(m, ApplyAll(m, base, rs), base, rs)
  {
    hide Byte, ApplyAll;
    forall x | (forall r | r in rs :: !r.Covers(base, x))
      ensures Byte(ApplyAll(m, base, rs), x) == Byte(m, x)
    {
      Untouched(m, base, rs, x);
    }
  }

  lemma TargetsPlace(m: Mem, v: Image, m': Mem, v': Image, rs: seq<Reloc>)
    requires SameReads(m, v, m', v') && TargetsClear(m, v, rs) && Disjoint(v.base, rs)
    ensures |m| == SPACE && |m'| == SPACE && AllFit(v.base, rs) && AllFit(v'.base, rs) && Disjoint(v'.base, rs)
    ensures forall r | r in rs && r.Writes() ::
      r.offset + 4 <= v.size && r.Target(v.base) == v.base + r.offset && r.Target(v'.base) == v'.base + r.offset
  {
    hide Word, Half, Byte, CString, Protected, Shifted, SameSectionAt;
    forall r | r in rs && r.Writes()
      ensures r.offset + 4 <= v.size && r.Target(v.base) == v.base + r.offset && r.Target(v'.base) == v'.base + r.offset
    {
    }
    forall i, j | 0 <= i < j < |rs|
      ensures Apart(v'.base, rs[i], rs[j])
    {
      assert Apart(v.base, rs[i], rs[j]) && rs[i] in rs && rs[j] in rs;
    }
  }
}
