/** Loading one file at two addresses, and relocating it there. */
module TwoLoads {
  import opened Memory
  import opened Imports
  import opened Relocs
  import opened Elf
  import opened ElfFile
  import opened LoadedImage
  import opened TwoRuns

  /** The memory m after the file is read to t, and its text segment x and data segment d are mapped for
      an image at base. */
  function Mapped(m: Mem, t: int, f: Mem, x: int, d: int, base: word): (n: Mem)
    ensures |n| == |m|
  {
    MapTwo(Splice(m, t, f), t, HeaderAt(f, x), SegmentAt(f, x), HeaderAt(f, d), SegmentAt(f, d), base)
  }

  ghost predicate Mappable(m: Mem, t: int, f: Mem, x: int, d: int, base: word) {
    |m| == SPACE && Headers(f, x, d) && Placed(t, |f|, SegmentAt(f, x), SegmentAt(f, d), base)
  }

  /** Offset o of the file belongs to p_vaddr of program header i. */
  predicate InVaddr(f: Mem, i: int, o: int) {
    HeaderAt(f, i) + 8 <= o < HeaderAt(f, i) + 12
  }

  /** Offset o of the image is copied from a p_vaddr that so_load has relocated by then. */
  predicate HoldsVaddr(f: Mem, x: int, d: int, o: int) {
    var text, data := SegmentAt(f, x), SegmentAt(f, d);
    || (0 <= o < text.fileSize && InVaddr(f, x, text.offset + o))
    || (data.vaddr <= o < data.vaddr + data.fileSize
        && (InVaddr(f, x, data.offset + (o - data.vaddr)) || InVaddr(f, d, data.offset + (o - data.vaddr))))
  }

  /** What the file puts at offset o of the image. */
  function FileByte(f: Mem, x: int, d: int, o: int): byte {
    var text, data := SegmentAt(f, x), SegmentAt(f, d);
    if 0 <= o < text.fileSize then Byte(f, text.offset + o)
    else if data.vaddr <= o < data.vaddr + data.fileSize then Byte(f, data.offset + (o - data.vaddr))
    else 0
  }

  lemma PatchFrame(g: Mem, f: Mem, i: int, w: word, o: int)
    requires !InVaddr(f, i, o)
    ensures Byte(SetWord(g, HeaderAt(f, i) + 8, w), o) == Byte(g, o)
  {
    hide HeaderAt, Byte;
    SetFrame(g, HeaderAt(f, i) + 8, w);
  }

  lemma ImageByteIs(m: Mem, t: int, f: Mem, x: int, d: int, base: word, o: int)
    requires Mappable(m, t, f, x, d, base) && !HoldsVaddr(f, x, d, o)
    requires 0 <= o < SegmentAt(f, x).blockSize + SegmentAt(f, d).blockSize
    ensures Byte(Mapped(m, t, f, x, d, base), base + o) == FileByte(f, x, d, o)
  {
    hide Byte, Splice, SetWord, MapTwo, Holds, SegmentAt, Word, Half;
    var text, data := SegmentAt(f, x), SegmentAt(f, d);
    FileHeld(m, t, f);
    FlatImage(Splice(m, t, f), t, f, HeaderAt(f, x), text, HeaderAt(f, d), data, base, base + o);
    var g := SetWord(f, HeaderAt(f, x) + 8, Add(text.vaddr, base));
    assert base + o - base == o;
    if 0 <= o < text.fileSize {
      PatchFrame(f, f, x, Add(text.vaddr, base), text.offset + o);
    } else if data.vaddr <= o < data.vaddr + data.fileSize {
      PatchFrame(f, f, x, Add(text.vaddr, base), data.offset + (o - data.vaddr));
      PatchFrame(g, f, d, Add(data.vaddr, base), data.offset + (o - data.vaddr));
    }
  }

  /** The copy of the file is the file, but for its program headers. */
  ghost predicate CopyOf(n: Mem, t: int, f: Mem) {
    forall o | 0 <= o < |f| && !(HeaderTable(f) <= o < HeaderTable(f) + 32 * HeaderCount(f)) ::
      Byte(n, t + o) == Byte(f, o)
  }

  lemma CopyIs(m: Mem, t: int, f: Mem, x: int, d: int, base: word)
    requires Mappable(m, t, f, x, d, base)
    ensures CopyOf(Mapped(m, t, f, x, d, base), t, f)
  {
    hide Byte, Splice, SetWord, MapTwo, Holds, SegmentAt, Word, Half;
    var text, data := SegmentAt(f, x), SegmentAt(f, d);
    FileHeld(m, t, f);
    forall o | 0 <= o < |f| && !(HeaderTable(f) <= o < HeaderTable(f) + 32 * HeaderCount(f))
      ensures Byte(Mapped(m, t, f, x, d, base), t + o) == Byte(f, o)
    {
      FlatImage(Splice(m, t, f), t, f, HeaderAt(f, x), text, HeaderAt(f, d), data, base, t + o);
      assert t + o - t == o;
      PatchFrame(f, f, x, Add(text.vaddr, base), o);
      PatchFrame(SetWord(f, HeaderAt(f, x) + 8, Add(text.vaddr, base)), f, d, Add(data.vaddr, base), o);
    }
  }

  lemma CopyWord(n: Mem, t: int, f: Mem, o: int)
    requires CopyOf(n, t, f) && 0 <= o && o + 4 <= |f|
    requires o + 4 <= HeaderTable(f) || HeaderTable(f) + 32 * HeaderCount(f) <= o
    ensures Word(n, t + o) == Word(f, o) && Half(n, t + o) == Half(f, o)
  {
    assert Byte(n, t + o) == Byte(f, o) && Byte(n, t + (o + 1)) == Byte(f, o + 1);
    assert Byte(n, t + (o + 2)) == Byte(f, o + 2) && Byte(n, t + (o + 3)) == Byte(f, o + 3);
  }

  lemma CopyName(n: Mem, t: int, f: Mem, i: int)
    requires CopyOf(n, t, f) && NameOk(f, i) && 0 <= t && t + |f| <= |n|
    ensures CString(n, t + NameTable(f) + Word(f, SectionTable(f) + 40 * i)) == NameOf(f, i)
  {
    hide Byte, Word, Half;
    var a := NameTable(f) + Word(f, SectionTable(f) + 40 * i);
    ShiftedString(f, a, n, t + a);
  }

  /** The section headers read in the copy as in the file. */
  lemma SectionIs(n: Mem, t: word, f: Mem, base: word, i: int)
    requires CopyOf(n, t, f) && HeadersOk(f) && t + |f| <= |n| == SPACE && 0 <= i < SectionsIn(f)
    ensures var v := ImageOf(f, t, base);
            && SectionName(n, v, i) == NameOf(f, i)
            && Word(n, SectionHeader(v, i) + 12) == Word(f, SectionTable(f) + 40 * i + 12)
            && SectionSize(n, v, i) == Word(f, SectionTable(f) + 40 * i + 20)
  {
    hide Byte, Word, Half, CString, CopyOf, HeaderTable, TableAddress, SymbolCount, ImageSize;
    var o := SectionTable(f) + 40 * i;
    assert NameOk(f, i) && NameTable(f) + Word(f, o) < |f|;
    assert ImageOf(f, t, base).sections == t + SectionTable(f);
    assert ImageOf(f, t, base).names == t + NameTable(f);
    CopyWord(n, t, f, o);
    CopyWord(n, t, f, o + 12);
    CopyWord(n, t, f, o + 20);
    CopyName(n, t, f, i);
  }

  lemma CountIs(n: Mem, t: word, f: Mem, base: word)
    requires CopyOf(n, t, f) && HeadersOk(f)
    ensures SectionCount(n, ImageOf(f, t, base)) == SectionsIn(f)
  {
    hide Byte, Word, Half, CopyOf, HeaderTable, TableAddress, SymbolCount, ImageSize;
    FileHeaderOk(f);
    CopyWord(n, t, f, 48);
  }

  lemma PieceIs(m: Mem, t: int, m': Mem, t': int, f: Mem, x: int, d: int, base: word, base': word, o: int, len: int)
    requires Mappable(m, t, f, x, d, base) && Mappable(m', t', f, x, d, base')
    requires 0 <= o && o + len <= SegmentAt(f, x).blockSize + SegmentAt(f, d).blockSize
    requires forall i | o <= i < o + len :: !HoldsVaddr(f, x, d, i)
    ensures Shifted(Mapped(m, t, f, x, d, base), base + o, Mapped(m', t', f, x, d, base'), base' + o, len)
  {
    hide Byte, SegmentAt, Mappable, HoldsVaddr, Mapped;
    forall a | base + o <= a < base + o + len
      ensures Byte(Mapped(m, t, f, x, d, base), a) == Byte(Mapped(m', t', f, x, d, base'), a + (base' + o - (base + o)))
    {
      ImageByteIs(m, t, f, x, d, base, a - base);
      ImageByteIs(m', t', f, x, d, base', a - base);
      assert base + (a - base) == a && base' + (a - base) == a + (base' + o - (base + o));
    }
  }

  /** No table byte and no target byte of the image is a copy of a relocated p_vaddr. */
  ghost predicate VaddrClear(n: Mem, v: Image, f: Mem, x: int, d: int, rs: seq<Reloc>) {
    && (forall a | v.base <= a < v.base + v.size && Protected(n, v, a) :: !HoldsVaddr(f, x, d, a - v.base))
    && (forall r, o: int | r in rs && r.Writes() && r.offset <= o < r.offset + 4 :: !HoldsVaddr(f, x, d, o))
  }

  lemma PieceClear(n: Mem, v: Image, f: Mem, x: int, d: int, rs: seq<Reloc>, o: int, len: int)
    requires VaddrClear(n, v, f, x, d, rs) && 0 <= o && o + len <= v.size
    requires forall a | v.base + o <= a < v.base + o + len :: Protected(n, v, a)
    ensures forall i | o <= i < o + len :: !HoldsVaddr(f, x, d, i)
  {
    hide Protected, HoldsVaddr;
    forall i | o <= i < o + len
      ensures !HoldsVaddr(f, x, d, i)
    {
      assert Protected(n, v, v.base + i);
      assert v.base + i - v.base == i;
    }
  }

  /** A table that is found and lies behind base is as far behind it as the file says. */
  lemma TablePlace(f: Mem, base: word, base': word, name: string, n: nat)
    requires TableAddress(f, base, name, n) != 0 && base <= TableAddress(f, base, name, n)
    requires TableAddress(f, base', name, n) != 0 && base' <= TableAddress(f, base', name, n)
    ensures TableAddress(f, base, name, n) - base == TableAddress(f, base', name, n) - base'
  {
    hide Word, NameOf;
  }

  /** Both loads have found their tables inside the image. */
  ghost predicate Found(n: Mem, v: Image) {
    WellFormed(n, v) && v.syms != 0 && v.dynstr != 0
  }

  lemma TablesAlike(m: Mem, t: word, m': Mem, t': word, f: Mem, x: int, d: int, base: word, base': word, rs: seq<Reloc>)
    requires Mappable(m, t, f, x, d, base) && Mappable(m', t', f, x, d, base') && AllLoads(f) == [x, d]
    requires var n, v := Mapped(m, t, f, x, d, base), ImageOf(f, t, base);
             Found(n, v) && Found(Mapped(m', t', f, x, d, base'), ImageOf(f, t', base'))
             && VaddrClear(n, v, f, x, d, rs)
    ensures var n, v := Mapped(m, t, f, x, d, base), ImageOf(f, t, base);
            var n', v' := Mapped(m', t', f, x, d, base'), ImageOf(f, t', base');
            && v.syms - v.base == v'.syms - v'.base && v.dynstr - v.base == v'.dynstr - v'.base
            && Shifted(n, v.syms, n', v'.syms, 16 * v.numSyms) && Shifted(n, v.dynstr, n', v'.dynstr, v.dynstrSize)
  {
    hide Byte, Word, Half, CString, SegmentAt, Mappable, HoldsVaddr;
    hide Mapped, TableAddress, Shifted, AllLoads, SectionsOk;
    hide SymbolCount, TableSize;
    var n, v := Mapped(m, t, f, x, d, base), ImageOf(f, t, base);
    TablePlace(f, base, base', ".dynsym", SectionsIn(f));
    TablePlace(f, base, base', ".dynstr", SectionsIn(f));
    PieceClear(n, v, f, x, d, rs, v.syms - v.base, 16 * v.numSyms);
    PieceClear(n, v, f, x, d, rs, v.dynstr - v.base, v.dynstrSize);
    PieceIs(m, t, m', t', f, x, d, base, base', v.syms - v.base, 16 * v.numSyms);
    PieceIs(m, t, m', t', f, x, d, base, base', v.dynstr - v.base, v.dynstrSize);
  }

  /** A relocation section that is not empty lies in the image, and is protected. */
  lemma RelPlace(n: Mem, v: Image, i: int)
    requires WellFormed(n, v) && 0 <= i < SectionCount(n, v) && IsRelSection(n, v, i) && 0 < SectionSize(n, v, i)
    ensures var o := Word(n, SectionHeader(v, i) + 12);
            && o + SectionSize(n, v, i) <= v.size && SectionAddr(n, v, i) == v.base + o
            && forall a | v.base + o <= a < v.base + o + SectionSize(n, v, i) :: Protected(n, v, a)
  {
    hide Word, Half, CString, Byte, SectionHeader, SectionName;
    assert IsLoadedSection(n, v, i);
    var o := Word(n, SectionHeader(v, i) + 12);
    assert o + SectionSize(n, v, i) <= v.size;
  }

  lemma HeadersAlike(m: Mem, t: word, m': Mem, t': word, f: Mem, x: int, d: int, base: word, base': word, i: int)
    requires Mappable(m, t, f, x, d, base) && Mappable(m', t', f, x, d, base') && 0 <= i < SectionsIn(f)
    ensures var n, v := Mapped(m, t, f, x, d, base), ImageOf(f, t, base);
            var n', v' := Mapped(m', t', f, x, d, base'), ImageOf(f, t', base');
            && SectionName(n, v, i) == SectionName(n', v', i) && SectionSize(n, v, i) == SectionSize(n', v', i)
            && Word(n, SectionHeader(v, i) + 12) == Word(n', SectionHeader(v', i) + 12)
  {
    hide Byte, Word, Half, CString, SegmentAt, Mappable, Mapped, TableAddress, AllLoads, CopyOf, SectionHeader;
    hide SectionsIn, HeadersOk, ImageOf, NameOf;
    InSpace(m, t, f, x, d, base);
    InSpace(m', t', f, x, d, base');
    CopyIs(m, t, f, x, d, base);
    CopyIs(m', t', f, x, d, base');
    SectionIs(Mapped(m, t, f, x, d, base), t, f, base, i);
    SectionIs(Mapped(m', t', f, x, d, base'), t', f, base', i);
  }

  lemma SectionAlike(m: Mem, t: word, m': Mem, t': word, f: Mem, x: int, d: int, base: word, base': word,
                     rs: seq<Reloc>, i: int)
    requires Mappable(m, t, f, x, d, base) && Mappable(m', t', f, x, d, base') && AllLoads(f) == [x, d]
    requires var n, v := Mapped(m, t, f, x, d, base), ImageOf(f, t, base);
             var n', v' := Mapped(m', t', f, x, d, base'), ImageOf(f, t', base');
             && WellFormed(n, v) && WellFormed(n', v') && VaddrClear(n, v, f, x, d, rs)
             && SectionCount(n', v') == SectionCount(n, v) == SectionsIn(f)
    requires 0 <= i < SectionsIn(f)
    ensures SameSectionAt(Mapped(m, t, f, x, d, base), ImageOf(f, t, base),
                          Mapped(m', t', f, x, d, base'), ImageOf(f, t', base'), i)
  {
    hide Byte, Word, Half, CString, SegmentAt, Mappable, HoldsVaddr;
    hide Mapped, TableAddress, Shifted, AllLoads, WellFormed;
    hide SymbolCount, TableSize, SectionHeader, SectionsIn, SectionCount;
    hide SectionAddr, SectionSize, VaddrClear, Protected;
    hide SectionName;
    var n, v := Mapped(m, t, f, x, d, base), ImageOf(f, t, base);
    var n', v' := Mapped(m', t', f, x, d, base'), ImageOf(f, t', base');
    HeadersAlike(m, t, m', t', f, x, d, base, base', i);
    if IsRelSection(n, v, i) && 0 < SectionSize(n, v, i) {
      var o := Word(n, SectionHeader(v, i) + 12);
      RelPlace(n, v, i);
      RelPlace(n', v', i);
      PieceClear(n, v, f, x, d, rs, o, SectionSize(n, v, i));
      PieceIs(m, t, m', t', f, x, d, base, base', o, SectionSize(n, v, i));
    } else {
      NothingShifted(n, SectionAddr(n, v, i), n', SectionAddr(n', v', i));
    }
  }

  lemma NothingShifted(m: Mem, a: int, m': Mem, b: int)
    ensures Shifted(m, a, m', b, 0)
  {
  }

  lemma InSpace(m: Mem, t: int, f: Mem, x: int, d: int, base: word)
    requires Mappable(m, t, f, x, d, base)
    ensures t + |f| <= SPACE == |Mapped(m, t, f, x, d, base)| && HeadersOk(f)
  {
    hide HeadersOk, Word, Half;
  }

  /** Two loads of one file read the same tables and the same target words, as long as these are not
      copies of a relocated p_vaddr. */
  lemma LoadedAlike(m: Mem, t: word, m': Mem, t': word, f: Mem, x: int, d: int, base: word, base': word,
                    fs: seq<DynLibFunction>)
    requires Mappable(m, t, f, x, d, base) && Mappable(m', t', f, x, d, base') && AllLoads(f) == [x, d]
    requires var n, v := Mapped(m, t, f, x, d, base), ImageOf(f, t, base);
             && Found(n, v) && Found(Mapped(m', t', f, x, d, base'), ImageOf(f, t', base')) && SymbolsExist(n, v)
             && TargetsClear(n, v, AllRelocs(n, v, fs)) && VaddrClear(n, v, f, x, d, AllRelocs(n, v, fs))
    ensures var n, v := Mapped(m, t, f, x, d, base), ImageOf(f, t, base);
            var n', v' := Mapped(m', t', f, x, d, base'), ImageOf(f, t', base');
            SameReads(n, v, n', v') && SameTargets(n, v, n', v', AllRelocs(n, v, fs))
  {
    hide Byte, Word, Half, CString, SegmentAt, Mappable, HoldsVaddr;
    hide Mapped, TableAddress, Shifted, AllLoads, WellFormed;
    hide SymbolCount, TableSize, CopyOf, SectionHeader, AllRelocs, Protected, SameSectionAt, SymbolsExist;
    var n, v := Mapped(m, t, f, x, d, base), ImageOf(f, t, base);
    var n', v' := Mapped(m', t', f, x, d, base'), ImageOf(f, t', base');
    var rs := AllRelocs(n, v, fs);
    InSpace(m, t, f, x, d, base);
    CopyIs(m, t, f, x, d, base);
    CopyIs(m', t', f, x, d, base');
    CountIs(n, t, f, base);
    CountIs(n', t', f, base');
    TablesAlike(m, t, m', t', f, x, d, base, base', rs);
    forall i | 0 <= i < SectionCount(n, v)
      ensures SameSectionAt(n, v, n', v', i)
    {
      SectionAlike(m, t, m', t', f, x, d, base, base', rs, i);
    }
    forall r | r in rs && r.Writes()
      ensures Word(n, v.base + r.offset) == Word(n', v'.base + r.offset)
    {
      PieceIs(m, t, m', t', f, x, d, base, base', r.offset, 4);
      ShiftedWord(n, base + r.offset, n', base' + r.offset, 4, base + r.offset, base' + r.offset);
    }
  }

  /** One file, loaded at two addresses and relocated at each. */
  lemma {:induction false} TwoLoads(m: Mem, t: word, m': Mem, t': word, f: Mem, x: int, d: int, base: word, base': word,
                                    fs: seq<DynLibFunction>)
    requires Mappable(m, t, f, x, d, base) && Mappable(m', t', f, x, d, base') && AllLoads(f) == [x, d]
    requires var n, v := Mapped(m, t, f, x, d, base), ImageOf(f, t, base);
             && Found(n, v) && Found(Mapped(m', t', f, x, d, base'), ImageOf(f, t', base')) && SymbolsExist(n, v)
             && TargetsClear(n, v, AllRelocs(n, v, fs)) && Disjoint(base, AllRelocs(n, v, fs))
             && VaddrClear(n, v, f, x, d, AllRelocs(n, v, fs))
    ensures var n, v := Mapped(m, t, f, x, d, base), ImageOf(f, t, base);
            var n', v' := Mapped(m', t', f, x, d, base'), ImageOf(f, t', base');
            var rs := AllRelocs(n, v, fs);
            && AllRelocs(n', v', fs) == rs
            && MovedBy(ApplyAll(n, base, rs), base, ApplyAll(n', base', rs), base', rs)
            && OnlyTargets(n, ApplyAll(n, base, rs), base, rs) && OnlyTargets(n', ApplyAll(n', base', rs), base', rs)
  {
    hide Byte, Word, Half, CString, SegmentAt, Mappable, Mapped, TableAddress, AllLoads, WellFormed, ApplyAll;
    hide SymbolCount, TableSize, AllRelocs, Protected, SymbolsExist, SameReads;
    hide SameTargets, TargetsClear, MovedBy, OnlyTargets;
    LoadedAlike(m, t, m', t', f, x, d, base, base', fs);
    TwoBases(Mapped(m, t, f, x, d, base), ImageOf(f, t, base),
             Mapped(m', t', f, x, d, base'), ImageOf(f, t', base'), fs);
  }
}
