/** Small files that show that the conditions of the theorems can be met, and that the cases in which
    so_load does not do what one would expect are reached. */
module Samples {
  import opened Memory
  import opened Options
  import opened Arm
  import opened Imports
  import opened Relocs
  import opened Elf
  import opened ElfFile
  import opened LoadedImage
  import opened TwoRuns
  import opened TwoLoads
  import opened Kernel
  import opened SoUtil
  import opened Startup

  lemma {:induction false} CStringIs(m: Mem, a: int, s: string)
    requires 0 <= a && a + |s| < |m| && Byte(m, a + |s|) == 0
    requires forall k | 0 <= k < |s| :: s[k] as int == Byte(m, a + k) != 0
    ensures CString(m, a) == s
    decreases |s|
  {
    if s != "" {
      assert s[0] as int == Byte(m, a + 0);
      forall k | 0 <= k < |s| - 1
        ensures s[1..][k] as int == Byte(m, a + 1 + k) != 0
      {
        assert s[k + 1] as int == Byte(m, a + (k + 1));
      }
      CStringIs(m, a + 1, s[1..]);
    }
  }

  lemma AlignPage(x: word)
    requires 0 < x <= 0x1000
    ensures AlignMem(x, 0x1000) == 0x1000
  {
    hide AlignMem;
    assert Pow2(12) == 0x1000;
    AlignIsLeastMultiple(x, 12);
    var q: nat :| AlignMem(x, Pow2(12)) == q * Pow2(12);
    assert q == 1;
  }

  /* Headers only */

  /** An ELF file of count loadable segments of 16 bytes, all with the same flags, and no sections. */
  function BareByte(flags: byte, count: byte, i: int): byte {
    if i == 0 then 0x7f else if i == 1 then 'E' as int else if i == 2 then 'L' as int else if i == 3 then 'F' as int
    else if i == 28 then 52
    else if i == 32 then 116
    else if i == 44 then count
    else if i == 52 || i == 84 then 1
    else if i == 72 || i == 104 then 16
    else if i == 76 || i == 108 then flags
    else if i == 80 || i == 112 then 1
    else 0
  }

  function Bare(flags: byte, count: byte): (f: Mem)
    ensures |f| == 156 && forall i :: Byte(f, i) == if 0 <= i < 156 then BareByte(flags, count, i) else 0
  {
    seq<byte>(156, i => BareByte(flags, count, i))
  }

  lemma BareHeader(flags: byte, count: byte)
    ensures var f := Bare(flags, count);
            && HasMagic(f) && HeaderTable(f) == 52 && HeaderCount(f) == count && SectionsIn(f) == 0
            && SectionTable(f) == NameSection(f) == 116
  {
    var f := Bare(flags, count);
    assert Word(f, 28) == 52 && Word(f, 32) == 116 && Half(f, 44) == count && Half(f, 48) == Half(f, 50) == 0;
  }

  lemma BareWords(flags: byte, count: byte, p: int)
    requires p == 52 || p == 84
    ensures var f := Bare(flags, count);
            && Word(f, p) == 1 && Word(f, p + 4) == 0 && Word(f, p + 8) == 0 && Word(f, p + 16) == 0
            && Word(f, p + 20) == 16 && Word(f, p + 24) == flags && Word(f, p + 28) == 1
  {
  }

  lemma BareSegment(flags: byte, count: byte, i: int)
    requires 0 <= i < count <= 2
    ensures var f := Bare(flags, count);
            && HasMagic(f) && HeaderTable(f) == 52 && HeaderCount(f) == count && SectionsIn(f) == 0
            && SectionTable(f) == NameSection(f) == 116
            && SegmentAt(f, i) == Segment(PT_LOAD, 0, 0, 0, 16, flags, 1, AlignMem(16, 1))
  {
    hide AlignMem, Word, Half, Byte, Bare, SegmentAt;
    BareHeader(flags, count);
    BareWords(flags, count, 52 + 32 * i);
    SegmentIs(Bare(flags, count), i, Segment(PT_LOAD, 0, 0, 0, 16, flags, 1, AlignMem(16, 1)));
  }

  lemma BareOk(flags: byte, count: byte)
    requires 0 < count <= 2
    ensures var f := Bare(flags, count);
            && FileOk(f) && HasMagic(f) && AllLoads(f) == (if count == 1 then [0] else [0, 1])
            && SegmentAt(f, 0).Executable() == (flags % 2 == 1)
            && (count == 2 ==> SegmentAt(f, 1).Executable() == (flags % 2 == 1))
  {
    hide Word, Half, Byte, AlignMem, SegmentAt, Bare;
    var f := Bare(flags, count);
    BareSegment(flags, count, 0);
    if count == 2 {
      BareSegment(flags, count, 1);
    }
    assert Loads(f, 0) == [];
    assert Loads(f, 1) == [0];
    assert Pow2(0) == 1;
    assert forall i | i in AllLoads(f) :: SegmentAt(f, i).Ok(f);
  }

  /** One data segment: so_load reports success and loads nothing. */
  lemma DataFirst()
    ensures FileOk(Bare(0, 1)) && HasMagic(Bare(0, 1)) && FirstIsData(Bare(0, 1))
  {
    hide SegmentAt, FileOk, HasMagic, AllLoads, Bare;
    BareOk(0, 1);
  }

  /** Two executable segments: so_load fails, because a block is refused. */
  lemma TwoExecutable()
    ensures var f := Bare(1, 2);
            && FileOk(f) && HasMagic(f) && !FirstIsData(f) && !Supported(f)
            && |AllLoads(f)| == 2 && SegmentAt(f, AllLoads(f)[1]).Executable()
  {
    hide SegmentAt, FileOk, HasMagic, AllLoads, Bare;
    BareOk(1, 2);
  }

  /** When the first block is granted, that is the second one, and then the text block is left behind. */
  lemma TwoExecutableLeaks(l: Loader, before: map<int, Block>, frees: seq<int>, res: int, n: nat, text: int, data: int)
    requires l.Refused(before, frees, Bare(1, 2), res, n, text, data)
    ensures n <= 1 && (l.os.blocks != before <==> n == 1)
  {
    hide SegmentAt, AllLoads, Bare, FileOk, HasMagic, FirstIsData, Supported;
    TwoExecutable();
    l.LeftBehind(before, frees, Bare(1, 2), res, n, text, data);
  }

  /* A complete file */

  /** ".dynsym", ".dynstr"; ".rel.dyn", ".rel.plt"; ".init_array", each with its NUL. */
  const TABLE_NAMES: seq<byte> := [46, 100, 121, 110, 115, 121, 109, 0, 46, 100, 121, 110, 115, 116, 114, 0]
  const REL_NAMES: seq<byte> := [46, 114, 101, 108, 46, 100, 121, 110, 0, 46, 114, 101, 108, 46, 112, 108, 116, 0]
  const ARRAY_NAME: seq<byte> := [46, 105, 110, 105, 116, 95, 97, 114, 114, 97, 121, 0]

  function NameByte(i: int): byte {
    if 0 <= i < 16 then TABLE_NAMES[i]
    else if 16 <= i < 34 then REL_NAMES[i - 16]
    else if 34 <= i < 46 then ARRAY_NAME[i - 34]
    else 0
  }

  const SAMPLE_SIZE := 516

  /** A library that defines a function, f, and uses another, g.
        0    file header
        52   program header: text, file offset 0, the whole file, executable, aligned to 0x1000
        84   program header: data, file offset 488, 28 bytes of 32 at 0x1000, aligned to 0x1000
        116  section headers: .dynsym, .dynstr, .rel.dyn, .rel.plt, .init_array, section names
        356  section names
        404  symbol table: f is Thumb code at 0x800, g is undefined
        436  string table
        440  .rel.dyn: GLOB_DAT of f at 0x1008, ABS32 of g at 0x1004, RELATIVE at 0x100c and 0x1014
        472  .rel.plt: JUMP_SLOT of f at 0x1000, JUMP_SLOT of g at 0x1018
        488  data: 16, 0, 0, then .init_array: 0x801, 0, 0x811, then 0 */
  function SampleByte(i: int): byte {
    if i < 52 then HeaderByte(i)
    else if i < 116 then SegmentByte(i)
    else if i < 356 then SectionByte(i)
    else if i < 402 then NameByte(i - 356)
    else TableByte(i)
  }

  function HeaderByte(i: int): byte {
    if i == 0 then 0x7f else if i == 1 then 'E' as int else if i == 2 then 'L' as int else if i == 3 then 'F' as int
    else if i == 28 then 52
    else if i == 32 then 116
    else if i == 44 then 2
    else if i == 48 then 6
    else if i == 50 then 5
    else 0
  }

  function SegmentByte(i: int): byte {
    if i == 52 || i == 84 then 1
    else if i == 68 || i == 72 then 4 else if i == 69 || i == 73 then 2    // the size of the file
    else if i == 76 then 5
    else if i == 81 || i == 113 then 0x10
    else if i == 88 then 0xe8 else if i == 89 then 1
    else if i == 93 then 0x10
    else if i == 100 then 28
    else if i == 104 then 32
    else if i == 108 then 6
    else 0
  }

  function SectionByte(i: int): byte {
    if i == 128 then 0x94 else if i == 129 then 1 else if i == 136 then 32
    else if i == 156 then 8 else if i == 168 then 0xb4 else if i == 169 then 1 else if i == 176 then 4
    else if i == 196 then 16 else if i == 208 then 0xb8 else if i == 209 then 1 else if i == 216 then 32
    else if i == 236 then 25 else if i == 248 then 0xd8 else if i == 249 then 1 else if i == 256 then 16
    else if i == 276 then 34 else if i == 288 then 0x0c else if i == 289 then 0x10 else if i == 296 then 12
    else if i == 316 then 7 else if i == 332 then 0x64 else if i == 333 then 1
    else 0
  }

  function TableByte(i: int): byte {
    if i < 440 then SymbolByte(i)
    else if i < 488 then EntryByte(i)
    else DataByte(i)
  }

  function SymbolByte(i: int): byte {
    if i == 408 then 1 else if i == 409 then 8 else if i == 418 then 1
    else if i == 420 then 2
    else if i == 436 then 'f' as int else if i == 438 then 'g' as int
    else 0
  }

  function EntryByte(i: int): byte {
    if i == 440 then 8 else if i == 441 then 0x10 else if i == 444 then 21
    else if i == 448 then 4 else if i == 449 then 0x10 else if i == 452 then 2 else if i == 453 then 1
    else if i == 456 then 0x0c else if i == 457 then 0x10 else if i == 460 then 23
    else if i == 464 then 0x14 else if i == 465 then 0x10 else if i == 468 then 23
    else if i == 473 then 0x10 else if i == 476 then 22
    else if i == 480 then 0x18 else if i == 481 then 0x10 else if i == 484 then 22 else if i == 485 then 1
    else 0
  }

  function DataByte(i: int): byte {
    if i == 488 then 16
    else if i == 500 then 1 else if i == 501 then 8
    else if i == 508 then 0x11 else if i == 509 then 8
    else 0
  }

  function Sample(): (f: Mem)
    ensures |f| == SAMPLE_SIZE && forall i :: Byte(f, i) == if 0 <= i < SAMPLE_SIZE then SampleByte(i) else 0
  {
    seq<byte>(SAMPLE_SIZE, i => if 0 <= i < SAMPLE_SIZE then SampleByte(i) else 0)
  }

  lemma RawByte(k: int, b: byte)
    requires 0 <= k < SAMPLE_SIZE && SampleByte(k) == b
    ensures Byte(Sample(), k) == b
  {
  }

  lemma RawHalf(k: int, h: int)
    requires 0 <= k && k + 2 <= SAMPLE_SIZE && h == SampleByte(k) + 0x100 * SampleByte(k + 1)
    ensures Half(Sample(), k) == h
  {
    hide SampleByte;
  }

  lemma RawWord(k: int, w: int)
    requires 0 <= k && k + 4 <= SAMPLE_SIZE
    requires w == SampleByte(k) + 0x100 * SampleByte(k + 1)
                  + 0x1_0000 * SampleByte(k + 2) + 0x100_0000 * SampleByte(k + 3)
    ensures Word(Sample(), k) == w
  {
    hide SampleByte;
  }

  lemma SampleHeader()
    ensures var f := Sample();
            && HasMagic(f) && HeaderTable(f) == 52 && HeaderCount(f) == 2 && SectionsIn(f) == 6
            && SectionTable(f) == 116 && NameSection(f) == 316 && NameTable(f) == 356
  {
    hide Word, Half, Byte, Sample;
    RawByte(0, 0x7f);
    RawByte(1, 'E' as int);
    RawByte(2, 'L' as int);
    RawByte(3, 'F' as int);
    RawWord(28, 52);
    RawWord(32, 116);
    RawHalf(44, 2);
    RawHalf(48, 6);
    RawHalf(50, 5);
    RawWord(332, 356);
  }

  const TEXT := Segment(PT_LOAD, 0, 0, SAMPLE_SIZE, SAMPLE_SIZE, 5, 0x1000, 0x1000)
  const DATA := Segment(PT_LOAD, 488, 0x1000, 28, 32, 6, 0x1000, 0x1000)

  lemma SegmentIs(f: Mem, i: int, s: Segment)
    requires var p := HeaderAt(f, i);
             && Word(f, p) == s.kind && Word(f, p + 4) == s.offset && Word(f, p + 8) == s.vaddr
             && Word(f, p + 16) == s.fileSize && Word(f, p + 20) == s.memSize && Word(f, p + 24) == s.flags
             && Word(f, p + 28) == s.align
    requires s.blockSize == AlignMem(s.memSize, s.align)
    ensures SegmentAt(f, i) == s
  {
    hide Word, AlignMem;
  }

  lemma TextIs()
    ensures SegmentAt(Sample(), 0) == TEXT
  {
    hide Word, Byte, AlignMem, SegmentAt, Sample, HasMagic;
    SampleHeader();
    RawWord(52, 1);
    RawWord(56, 0);
    RawWord(60, 0);
    RawWord(68, SAMPLE_SIZE);
    RawWord(72, SAMPLE_SIZE);
    RawWord(76, 5);
    RawWord(80, 0x1000);
    AlignPage(SAMPLE_SIZE);
    SegmentIs(Sample(), 0, TEXT);
  }

  lemma DataIs()
    ensures SegmentAt(Sample(), 1) == DATA
  {
    hide Word, Byte, AlignMem, SegmentAt, Sample, HasMagic;
    SampleHeader();
    RawWord(84, 1);
    RawWord(88, 488);
    RawWord(92, 0x1000);
    RawWord(100, 28);
    RawWord(104, 32);
    RawWord(108, 6);
    RawWord(112, 0x1000);
    AlignPage(32);
    SegmentIs(Sample(), 1, DATA);
  }

  /** Name offset, address and size of the sections. */
  lemma SampleSections()
    ensures var f := Sample();
            && Word(f, 116) == 0 && Word(f, 128) == 404 && Word(f, 136) == 32
            && Word(f, 156) == 8 && Word(f, 168) == 436 && Word(f, 176) == 4
            && Word(f, 196) == 16 && Word(f, 208) == 440 && Word(f, 216) == 32
            && Word(f, 236) == 25 && Word(f, 248) == 472 && Word(f, 256) == 16
            && Word(f, 276) == 34 && Word(f, 288) == 0x100c && Word(f, 296) == 12
            && Word(f, 316) == 7 && Word(f, 328) == 0 && Word(f, 336) == 0
  {
    hide Word, Sample;
    RawWord(116, 0);
    RawWord(128, 404);
    RawWord(136, 32);
    RawWord(156, 8);
    RawWord(168, 436);
    RawWord(176, 4);
    RawWord(196, 16);
    RawWord(208, 440);
    RawWord(216, 32);
    RawWord(236, 25);
    RawWord(248, 472);
    RawWord(256, 16);
    RawWord(276, 34);
    RawWord(288, 0x100c);
    RawWord(296, 12);
    RawWord(316, 7);
    RawWord(328, 0);
    RawWord(336, 0);
  }

  lemma SampleSymbols()
    ensures var f := Sample();
            && Word(f, 404) == 0 && Word(f, 408) == 0x801 && Half(f, 418) == 1
            && Word(f, 420) == 2 && Word(f, 424) == 0 && Half(f, 434) == 0
            && Byte(f, 436) == 'f' as int && Byte(f, 437) == 0 && Byte(f, 438) == 'g' as int && Byte(f, 439) == 0
  {
    hide Word, Half, Byte, Sample;
    RawWord(404, 0);
    RawWord(408, 0x801);
    RawHalf(418, 1);
    RawWord(420, 2);
    RawWord(424, 0);
    RawHalf(434, 0);
    RawByte(436, 'f' as int);
    RawByte(437, 0);
    RawByte(438, 'g' as int);
    RawByte(439, 0);
  }

  lemma SampleEntries()
    ensures var f := Sample();
            && Word(f, 440) == 0x1008 && Word(f, 444) == 21
            && Word(f, 448) == 0x1004 && Word(f, 452) == 0x102
            && Word(f, 456) == 0x100c && Word(f, 460) == 23
            && Word(f, 464) == 0x1014 && Word(f, 468) == 23
            && Word(f, 472) == 0x1000 && Word(f, 476) == 22
            && Word(f, 480) == 0x1018 && Word(f, 484) == 0x116
  {
    hide Word, Sample;
    RawWord(440, 0x1008);
    RawWord(444, 21);
    RawWord(448, 0x1004);
    RawWord(452, 0x102);
    RawWord(456, 0x100c);
    RawWord(460, 23);
    RawWord(464, 0x1014);
    RawWord(468, 23);
    RawWord(472, 0x1000);
    RawWord(476, 22);
    RawWord(480, 0x1018);
    RawWord(484, 0x116);
  }

  lemma SampleData()
    ensures var f := Sample();
            && Word(f, 488) == 16 && Word(f, 492) == 0 && Word(f, 496) == 0 && Word(f, 500) == 0x801
            && Word(f, 504) == 0 && Word(f, 508) == 0x811 && Word(f, 512) == 0
  {
    hide Word, Sample;
    RawWord(488, 16);
    RawWord(492, 0);
    RawWord(496, 0);
    RawWord(500, 0x801);
    RawWord(504, 0);
    RawWord(508, 0x811);
    RawWord(512, 0);
  }

  lemma NameIs(o: nat, name: string)
    requires o + |name| < 46 && NameByte(o + |name|) == 0
    requires forall k | 0 <= k < |name| :: name[k] as int == NameByte(o + k) != 0
    ensures CString(Sample(), 356 + o) == name
  {
    hide Byte, CString;
    RawByte(356 + (o + |name|), NameByte(o + |name|));
    forall k | 0 <= k < |name|
      ensures name[k] as int == Byte(Sample(), 356 + o + k) != 0
    {
      RawByte(356 + (o + k), NameByte(o + k));
    }
    CStringIs(Sample(), 356 + o, name);
  }

  lemma DynsymName()
    ensures CString(Sample(), 356) == ".dynsym"
  {
    hide CString, Sample;
    NameIs(0, ".dynsym");
  }

  lemma DynstrName()
    ensures CString(Sample(), 364) == ".dynstr"
  {
    hide CString, Sample;
    NameIs(8, ".dynstr");
  }

  lemma RelDynName()
    ensures CString(Sample(), 372) == ".rel.dyn"
  {
    hide CString, Sample;
    NameIs(16, ".rel.dyn");
  }

  lemma RelPltName()
    ensures CString(Sample(), 381) == ".rel.plt"
  {
    hide CString, Sample;
    NameIs(25, ".rel.plt");
  }

  lemma InitArrayName()
    ensures CString(Sample(), 390) == ".init_array"
  {
    hide CString, Sample;
    NameIs(34, ".init_array");
  }

  lemma EmptyName()
    ensures CString(Sample(), 363) == ""
  {
    hide CString, Sample;
    NameIs(7, "");
  }

  lemma SampleNames()
    ensures var f := Sample();
            && NameOf(f, 0) == ".dynsym" && NameOf(f, 1) == ".dynstr" && NameOf(f, 2) == ".rel.dyn"
            && NameOf(f, 3) == ".rel.plt" && NameOf(f, 4) == ".init_array" && NameOf(f, 5) == ""
  {
    hide CString, Word, Half, Byte, Sample, HasMagic;
    SampleHeader();
    SampleSections();
    DynsymName();
    DynstrName();
    RelDynName();
    RelPltName();
    InitArrayName();
    EmptyName();
  }

  lemma SampleLoads()
    ensures AllLoads(Sample()) == [0, 1]
  {
    hide SegmentAt, Sample;
    SampleHeader();
    TextIs();
    DataIs();
    assert Loads(Sample(), 0) == [];
    assert Loads(Sample(), 1) == [0];
  }

  lemma SampleHeadersOk()
    ensures HeadersOk(Sample())
  {
    hide Word, Half, CString, Sample, HasMagic;
    var f := Sample();
    SampleHeader();
    SampleSections();
    SampleNames();
    forall i | 0 <= i < 6
      ensures NameOk(f, i)
    {
      assert |NameOf(f, i)| <= 11;
    }
  }

  lemma SampleFileOk()
    ensures FileOk(Sample()) && HasMagic(Sample()) && Supported(Sample()) && HasTables(Sample(), LOAD_ADDRESS)
  {
    hide Word, Half, CString, Sample, HasMagic, SegmentAt, AlignMem, HeadersOk, AllLoads, TableAddress;
    SampleHeader();
    SampleLoads();
    SampleHeadersOk();
    TextIs();
    DataIs();
    SampleImage(0, LOAD_ADDRESS);
    assert Pow2(12) == 0x1000;
  }

  /** What so_load's globals say when the copy is at t and the image at base. */
  function SampleView(t: word, base: word): Image {
    Image(t, SAMPLE_SIZE, base, 0x2000, Add(t, 116), Add(t, 356), Add(base, 404), 2, Add(base, 436), 4)
  }

  lemma SampleImage(t: word, base: word)
    ensures ImageOf(Sample(), t, base) == SampleView(t, base)
  {
    hide Word, Half, CString, Sample, HasMagic, SegmentAt, AllLoads, NameOf, SectionsIn;
    var f := Sample();
    SampleHeader();
    SampleSections();
    SampleNames();
    SampleLoads();
    TextIs();
    DataIs();
    hide SymbolCount, TableAddress, TableSize;
    LastTable(f, ".dynsym", 0);
    LastTable(f, ".dynstr", 1);
    SampleTables(base);
  }

  lemma LastTable(f: Mem, name: string, k: nat)
    requires k < 6 && NameOf(f, k) == name && forall i | k < i < 6 :: NameOf(f, i) != name
    ensures LastNamed(f, name, 6) == k
  {
  }

  lemma TableIs(f: Mem, base: word, name: string, k: nat)
    requires LastNamed(f, name, 6) == k && SectionTable(f) == 116
    ensures TableAddress(f, base, name, 6) == Add(base, Word(f, 128 + 40 * k))
    ensures TableSize(f, name, 6) == Word(f, 136 + 40 * k)
  {
    hide Word, Add, LastNamed, NameOf;
  }

  lemma SampleTables(base: word)
    requires LastNamed(Sample(), ".dynsym", 6) == 0 && LastNamed(Sample(), ".dynstr", 6) == 1
    ensures TableAddress(Sample(), base, ".dynsym", 6) == Add(base, 404) && SymbolCount(Sample(), 6) == 2
    ensures TableAddress(Sample(), base, ".dynstr", 6) == Add(base, 436) && TableSize(Sample(), ".dynstr", 6) == 4
  {
    hide Word, Half, Byte, Sample, LastNamed, TableAddress, TableSize, HasMagic, NameOf, Add;
    SampleHeader();
    SampleSections();
    TableIs(Sample(), base, ".dynsym", 0);
    TableIs(Sample(), base, ".dynstr", 1);
  }

  /** The memory with the sample mapped. */
  function LoadedSample(m: Mem, t: word, base: word): Mem { Mapped(m, t, Sample(), 0, 1, base) }

  /** The copy can be at t and the image at base. */
  predicate CopyAt(m: Mem, t: word, base: word) {
    && |m| == SPACE && base + 0x2000 <= SPACE
    && (t + SAMPLE_SIZE <= base || (base + 0x2000 <= t && t + SAMPLE_SIZE <= SPACE))
  }

  lemma SampleMapped(m: Mem, t: word, base: word)
    requires CopyAt(m, t, base)
    ensures Mappable(m, t, Sample(), 0, 1, base)
    ensures LoadedSample(m, t, base) == Mapped(m, t, Sample(), 0, 1, base) && |LoadedSample(m, t, base)| == SPACE
  {
    hide Word, Half, Sample, HeadersOk, HasMagic, SegmentAt, AllLoads, HeaderAt;
    SampleLoads();
    SampleHeader();
    SampleHeadersOk();
    TextIs();
    DataIs();
  }

  /** The memory that so_load leaves. */
  lemma SampleMapAll(m: Mem, t: word)
    ensures MapAll(m, t, Sample(), AllLoads(Sample())) == LoadedSample(m, t, LOAD_ADDRESS)
  {
    hide Word, Half, Sample, SegmentAt, AllLoads, Splice, MapTwo, MapAll, HeaderAt;
    SampleLoads();
    MapAllTwo(m, t, Sample(), 0, 1, SegmentAt(Sample(), 0), SegmentAt(Sample(), 1));
  }

  /** The text segment reads as the file, behind the program headers, and so does the data segment. */
  lemma LoadedByte(m: Mem, t: word, base: word, o: int)
    requires CopyAt(m, t, base)
    ensures 64 <= o < 0x1000 ==> Byte(LoadedSample(m, t, base), base + o) == Byte(Sample(), o)
    ensures 0x1000 <= o < 0x101c ==> Byte(LoadedSample(m, t, base), base + o) == Byte(Sample(), 488 + (o - 0x1000))
  {
    hide Word, Half, Sample, SegmentAt, AllLoads, MapAll, Mappable, Mapped, LoadedSample, SampleByte;
    SampleMapped(m, t, base);
    SampleHeader();
    TextIs();
    DataIs();
    if 64 <= o < 0x101c {
      ImageByteIs(m, t, Sample(), 0, 1, base, o);
    }
  }

  lemma LoadedWord(m: Mem, t: word, base: word, o: int)
    requires CopyAt(m, t, base) && 64 <= o && o + 4 <= 0x1000
    ensures Word(LoadedSample(m, t, base), base + o) == Word(Sample(), o)
    ensures Half(LoadedSample(m, t, base), base + o) == Half(Sample(), o)
    ensures Half(LoadedSample(m, t, base), base + o + 2) == Half(Sample(), o + 2)
  {
    hide Sample, LoadedSample, Byte, Word, Half, CopyAt;
    forall a | base + o <= a < base + o + 4
      ensures Byte(LoadedSample(m, t, base), a) == Byte(Sample(), a + (o - (base + o)))
    {
      LoadedByte(m, t, base, a - base);
      assert base + (a - base) == a && a + (o - (base + o)) == a - base;
    }
    ShiftedWord(LoadedSample(m, t, base), base + o, Sample(), o, 4, base + o, o);
  }

  lemma DataWord(m: Mem, t: word, base: word, o: int)
    requires CopyAt(m, t, base) && 0x1000 <= o && o + 4 <= 0x101c
    ensures Word(LoadedSample(m, t, base), base + o) == Word(Sample(), 488 + (o - 0x1000))
  {
    hide Sample, LoadedSample, Byte, Word, Half, CopyAt;
    var from := 488 + (o - 0x1000);
    forall a | base + o <= a < base + o + 4
      ensures Byte(LoadedSample(m, t, base), a) == Byte(Sample(), a + (from - (base + o)))
    {
      LoadedByte(m, t, base, a - base);
      assert base + (a - base) == a && a + (from - (base + o)) == 488 + (a - base - 0x1000);
    }
    ShiftedWord(LoadedSample(m, t, base), base + o, Sample(), from, 4, base + o, from);
  }

  /** The words of data. */
  lemma LoadedData(m: Mem, t: word, base: word)
    requires CopyAt(m, t, base)
    ensures var n := LoadedSample(m, t, base);
            && Word(n, base + 0x1000) == 16 && Word(n, base + 0x1004) == 0 && Word(n, base + 0x100c) == 0x801
            && Word(n, base + 0x1010) == 0 && Word(n, base + 0x1014) == 0x811
  {
    hide Sample, LoadedSample, Byte, Word;
    SampleData();
    DataWord(m, t, base, 0x1000);
    DataWord(m, t, base, 0x1004);
    DataWord(m, t, base, 0x100c);
    DataWord(m, t, base, 0x1010);
    DataWord(m, t, base, 0x1014);
  }

  /** Section i of the loaded sample. */
  lemma LoadedSections(m: Mem, t: word, base: word)
    requires CopyAt(m, t, base)
    ensures var n, v := LoadedSample(m, t, base), SampleView(t, base);
            && SectionCount(n, v) == 6
            && SectionName(n, v, 0) == ".dynsym" && SectionName(n, v, 1) == ".dynstr"
            && SectionName(n, v, 2) == ".rel.dyn" && SectionName(n, v, 3) == ".rel.plt"
            && SectionName(n, v, 4) == ".init_array" && SectionName(n, v, 5) == ""
            && forall i | 0 <= i < 6 ::
                 && SectionNameAt(n, v, i) == t + 356 + [0, 8, 16, 25, 34, 7][i]
                 && Word(n, SectionHeader(v, i) + 12) == [404, 436, 440, 472, 0x100c, 0][i]
                 && SectionSize(n, v, i) == [32, 4, 32, 16, 12, 0][i]
  {
    hide Word, Half, Byte, CString, Sample, HeadersOk, HasMagic;
    hide Mappable, Mapped, LoadedSample, CopyOf, ImageOf, NameOf;
    SampleHeader();
    SampleHeadersOk();
    SampleSections();
    SampleNames();
    SampleMapped(m, t, base);
    SampleImage(t, base);
    CopyIs(m, t, Sample(), 0, 1, base);
    var n, v := LoadedSample(m, t, base), SampleView(t, base);
    CountIs(n, t, Sample(), base);
    forall i | 0 <= i < 6
      ensures SectionName(n, v, i) == NameOf(Sample(), i)
      ensures SectionNameAt(n, v, i) == t + 356 + [0, 8, 16, 25, 34, 7][i]
      ensures Word(n, SectionHeader(v, i) + 12) == [404, 436, 440, 472, 0x100c, 0][i]
      ensures SectionSize(n, v, i) == [32, 4, 32, 16, 12, 0][i]
    {
      SectionIs(n, t, Sample(), base, i);
      CopyWord(n, t, Sample(), 116 + 40 * i);
    }
  }

  lemma LoadedSymbol(m: Mem, t: word, base: word)
    requires CopyAt(m, t, base)
    ensures var n, v := LoadedSample(m, t, base), SampleView(t, base);
            && SymNameAt(n, v, 0) == base + 436 && SymName(n, v, 0) == "f"
            && SymValue(n, v, 0) == 0x801 && SymDefined(n, v, 0)
  {
    hide Word, Half, Byte, CString, Sample, LoadedSample;
    var n := LoadedSample(m, t, base);
    SampleSymbols();
    LoadedWord(m, t, base, 404);
    LoadedWord(m, t, base, 408);
    LoadedWord(m, t, base, 416);
    LoadedByte(m, t, base, 436);
    LoadedByte(m, t, base, 437);
    FullSpace(m, t, base);
    CStringIs(n, base + 436, "f");
  }

  lemma LoadedUndefined(m: Mem, t: word, base: word)
    requires CopyAt(m, t, base)
    ensures var n, v := LoadedSample(m, t, base), SampleView(t, base);
            && SymNameAt(n, v, 1) == base + 438 && SymName(n, v, 1) == "g"
            && SymValue(n, v, 1) == 0 && !SymDefined(n, v, 1)
  {
    hide Word, Half, Byte, CString, Sample, LoadedSample;
    var n := LoadedSample(m, t, base);
    SampleSymbols();
    LoadedWord(m, t, base, 420);
    LoadedWord(m, t, base, 424);
    LoadedWord(m, t, base, 432);
    LoadedByte(m, t, base, 438);
    LoadedByte(m, t, base, 439);
    FullSpace(m, t, base);
    CStringIs(n, base + 438, "g");
  }

  lemma FullSpace(m: Mem, t: word, base: word)
    requires CopyAt(m, t, base)
    ensures |LoadedSample(m, t, base)| == SPACE
  {
  }

  lemma NameIn(n: Mem, v: Image, i: int, t: word)
    requires 0 <= i < 6 && v.names == t + 356 && SectionNameAt(n, v, i) == t + 356 + [0, 8, 16, 25, 34, 7][i]
    requires |SectionName(n, v, i)| <= 11
    ensures StringIn(n, SectionNameAt(n, v, i), t, t + SAMPLE_SIZE)
  {
    hide CString, SectionNameAt;
  }

  lemma LoadedSectionsOk(m: Mem, t: word, base: word)
    requires CopyAt(m, t, base)
    ensures SectionsOk(LoadedSample(m, t, base), SampleView(t, base))
  {
    hide Word, Half, Byte, CString, Sample, LoadedSample, SectionNameAt, StringIn, SectionName;
    var n, v := LoadedSample(m, t, base), SampleView(t, base);
    FullSpace(m, t, base);
    LoadedSections(m, t, base);
    forall i | 0 <= i < 6
      ensures StringIn(n, SectionNameAt(n, v, i), t, t + SAMPLE_SIZE)
      ensures Word(n, SectionHeader(v, i) + 12) + SectionSize(n, v, i) <= v.size
    {
      assert |SectionName(n, v, i)| <= 11;
      NameIn(n, v, i, t);
    }
  }

  lemma LoadedSymbolsOk(m: Mem, t: word, base: word)
    requires CopyAt(m, t, base)
    ensures SymbolTableOk(LoadedSample(m, t, base), SampleView(t, base))
  {
    hide Word, Half, Byte, CString, Sample, LoadedSample, SymNameAt;
    FullSpace(m, t, base);
    LoadedSymbol(m, t, base);
    LoadedUndefined(m, t, base);
  }

  lemma LoadedOk(m: Mem, t: word, base: word)
    requires CopyAt(m, t, base)
    ensures WellFormed(LoadedSample(m, t, base), SampleView(t, base))
  {
    hide SectionsOk, SymbolTableOk, LoadedSample, SampleView;
    LoadedSectionsOk(m, t, base);
    LoadedSymbolsOk(m, t, base);
  }

  /* The entries of the sample, decoded */

  const GOT := SetBase(0x1008, 0x801)
  const WORD := AddBase(0x1004, 0)
  const FIRST := AddBase(0x100c, 0)
  const SECOND := AddBase(0x1014, 0)
  const SLOT := SetBase(0x1000, 0x801)

  /** The slot of g holds the first import of that name, or its own offset. */
  function Import(fs: seq<DynLibFunction>): Reloc {
    SetImport(0x1018, match Bound(fs, "g") case Some(func) => func case None => 0x1018)
  }

  lemma LoadedGot(m: Mem, t: word, base: word, fs: seq<DynLibFunction>)
    requires CopyAt(m, t, base)
    ensures var n, v := LoadedSample(m, t, base), SampleView(t, base);
            && EntryAt(n, v, 2, 0) == base + 440
            && Word(n, base + 440) == 0x1008 && Word(n, base + 444) == 21
            && Entry(n, v, fs, 2, 0) == GOT
  {
    hide Word, Half, Byte, CString, Sample, LoadedSample, SymDefined, SymValue, SymName, SectionHeader, SectionNameAt;
    LoadedSections(m, t, base);
    LoadedSymbol(m, t, base);
    SampleEntries();
    LoadedWord(m, t, base, 440);
    LoadedWord(m, t, base, 444);
  }

  lemma LoadedAbsolute(m: Mem, t: word, base: word, fs: seq<DynLibFunction>)
    requires CopyAt(m, t, base)
    ensures var n, v := LoadedSample(m, t, base), SampleView(t, base);
            && EntryAt(n, v, 2, 1) == base + 448
            && Word(n, base + 448) == 0x1004 && Word(n, base + 452) == 0x102
            && Entry(n, v, fs, 2, 1) == WORD
  {
    hide Word, Half, Byte, CString, Sample, LoadedSample, SymDefined, SymValue, SymName, SectionHeader, SectionNameAt;
    LoadedSections(m, t, base);
    LoadedUndefined(m, t, base);
    SampleEntries();
    LoadedWord(m, t, base, 448);
    LoadedWord(m, t, base, 452);
  }

  lemma LoadedFirst(m: Mem, t: word, base: word, fs: seq<DynLibFunction>)
    requires CopyAt(m, t, base)
    ensures var n, v := LoadedSample(m, t, base), SampleView(t, base);
            && EntryAt(n, v, 2, 2) == base + 456
            && Word(n, base + 456) == 0x100c && Word(n, base + 460) == 23
            && Entry(n, v, fs, 2, 2) == FIRST
  {
    hide Word, Half, Byte, CString, Sample, LoadedSample, SymDefined, SymValue, SymName, SectionHeader, SectionNameAt;
    LoadedSections(m, t, base);
    LoadedSymbol(m, t, base);
    SampleEntries();
    LoadedWord(m, t, base, 456);
    LoadedWord(m, t, base, 460);
  }

  lemma LoadedSecond(m: Mem, t: word, base: word, fs: seq<DynLibFunction>)
    requires CopyAt(m, t, base)
    ensures var n, v := LoadedSample(m, t, base), SampleView(t, base);
            && EntryAt(n, v, 2, 3) == base + 464
            && Word(n, base + 464) == 0x1014 && Word(n, base + 468) == 23
            && Entry(n, v, fs, 2, 3) == SECOND
  {
    hide Word, Half, Byte, CString, Sample, LoadedSample, SymDefined, SymValue, SymName, SectionHeader, SectionNameAt;
    LoadedSections(m, t, base);
    LoadedSymbol(m, t, base);
    SampleEntries();
    LoadedWord(m, t, base, 464);
    LoadedWord(m, t, base, 468);
  }

  lemma LoadedSlot(m: Mem, t: word, base: word, fs: seq<DynLibFunction>)
    requires CopyAt(m, t, base)
    ensures var n, v := LoadedSample(m, t, base), SampleView(t, base);
            && EntryAt(n, v, 3, 0) == base + 472
            && Word(n, base + 472) == 0x1000 && Word(n, base + 476) == 22
            && Entry(n, v, fs, 3, 0) == SLOT
  {
    hide Word, Half, Byte, CString, Sample, LoadedSample, SymDefined, SymValue, SymName, SectionHeader, SectionNameAt;
    LoadedSections(m, t, base);
    LoadedSymbol(m, t, base);
    SampleEntries();
    LoadedWord(m, t, base, 472);
    LoadedWord(m, t, base, 476);
  }

  lemma LoadedImport(m: Mem, t: word, base: word, fs: seq<DynLibFunction>)
    requires CopyAt(m, t, base)
    ensures var n, v := LoadedSample(m, t, base), SampleView(t, base);
            && EntryAt(n, v, 3, 1) == base + 480
            && Word(n, base + 480) == 0x1018 && Word(n, base + 484) == 0x116
            && Entry(n, v, fs, 3, 1) == Import(fs)
  {
    hide Word, Half, Byte, CString, Sample, LoadedSample, SymDefined, SymValue, SymName, SectionHeader, SectionNameAt;
    LoadedSections(m, t, base);
    LoadedUndefined(m, t, base);
    SampleEntries();
    LoadedWord(m, t, base, 480);
    LoadedWord(m, t, base, 484);
  }

  lemma LoadedCounts(m: Mem, t: word, base: word)
    requires CopyAt(m, t, base)
    ensures var n, v := LoadedSample(m, t, base), SampleView(t, base);
            && EntryCount(n, v, 0) == EntryCount(n, v, 1) == EntryCount(n, v, 4) == EntryCount(n, v, 5) == 0
            && EntryCount(n, v, 2) == 4 && EntryCount(n, v, 3) == 2
  {
    hide Word, Half, Byte, CString, LoadedSample, SectionHeader, SectionNameAt;
    LoadedSections(m, t, base);
  }

  lemma EveryEntry(m: Mem, t: word, base: word, fs: seq<DynLibFunction>)
    requires CopyAt(m, t, base)
    ensures var n, v := LoadedSample(m, t, base), SampleView(t, base);
            && SectionRelocs(n, v, fs, 2, 4) == [GOT, WORD, FIRST, SECOND]
            && SectionRelocs(n, v, fs, 3, 2) == [SLOT, Import(fs)]
  {
    hide Word, Half, Byte, CString, LoadedSample, Entry, EntryCount, EntryAt, SectionName, Import;
    LoadedGot(m, t, base, fs);
    LoadedAbsolute(m, t, base, fs);
    LoadedFirst(m, t, base, fs);
    LoadedSecond(m, t, base, fs);
    LoadedSlot(m, t, base, fs);
    LoadedImport(m, t, base, fs);
  }

  lemma SymbolsOfSample(m: Mem, t: word, base: word)
    requires CopyAt(m, t, base)
    ensures SymbolsExist(LoadedSample(m, t, base), SampleView(t, base))
  {
    hide Word, Half, Byte, CString, LoadedSample, Entry, EntryCount, EntryAt, SectionName, Import;
    var n, v := LoadedSample(m, t, base), SampleView(t, base);
    LoadedGot(m, t, base, []);
    LoadedAbsolute(m, t, base, []);
    LoadedFirst(m, t, base, []);
    LoadedSecond(m, t, base, []);
    LoadedSlot(m, t, base, []);
    LoadedImport(m, t, base, []);
    LoadedCounts(m, t, base);
    LoadedSections(m, t, base);
    forall i, j | 0 <= i < 6 && 0 <= j < EntryCount(n, v, i)
      ensures SymbolExists(v, Word(n, EntryAt(n, v, i, j) + 4))
    {
      assert i == 2 || i == 3;
      assert i == 2 ==> j == 0 || j == 1 || j == 2 || j == 3;
      assert i == 3 ==> j == 0 || j == 1;
    }
  }

  function Relocations(fs: seq<DynLibFunction>): seq<Reloc> { [GOT, WORD, FIRST, SECOND, SLOT, Import(fs)] }

  lemma LoadedRelocs(m: Mem, t: word, base: word, fs: seq<DynLibFunction>)
    requires CopyAt(m, t, base)
    ensures var n, v := LoadedSample(m, t, base), SampleView(t, base);
            SymbolsExist(n, v) && AllRelocs(n, v, fs) == Relocations(fs)
  {
    hide Word, Half, Byte, CString, LoadedSample, Entry, EntryCount, EntryAt, SectionName, SectionRelocs, Import;
    var n, v := LoadedSample(m, t, base), SampleView(t, base);
    SymbolsOfSample(m, t, base);
    EveryEntry(m, t, base, fs);
    LoadedCounts(m, t, base);
    LoadedSections(m, t, base);
    NoEntries(n, v, fs, 0);
    NoEntries(n, v, fs, 1);
    NoEntries(n, v, fs, 4);
    NoEntries(n, v, fs, 5);
    assert RelocsUpTo(n, v, fs, 0) == [] && RelocsUpTo(n, v, fs, 1) == [] && RelocsUpTo(n, v, fs, 2) == [];
    assert RelocsUpTo(n, v, fs, 3) == [GOT, WORD, FIRST, SECOND];
    assert RelocsUpTo(n, v, fs, 4) == Relocations(fs) && RelocsUpTo(n, v, fs, 5) == Relocations(fs);
  }

  lemma NoEntries(n: Mem, v: Image, fs: seq<DynLibFunction>, i: int)
    ensures SectionRelocs(n, v, fs, i, 0) == []
  {
  }

  /** The rest of the image belongs to no table. */
  lemma RestIsFree(m: Mem, t: word, base: word, x: int)
    requires CopyAt(m, t, base) && base + SAMPLE_SIZE <= x < base + 0x2000
    ensures !Protected(LoadedSample(m, t, base), SampleView(t, base), x)
  {
    hide Word, Half, Byte, CString, LoadedSample, SectionHeader, SectionNameAt, SectionName, SectionAddr, SectionSize;
    hide SectionCount;
    LoadedSections(m, t, base);
    RelPlaceOfSample(m, t, base);
  }

  /** The relocation sections. */
  lemma RelPlaceOfSample(m: Mem, t: word, base: word)
    requires CopyAt(m, t, base)
    ensures var n, v := LoadedSample(m, t, base), SampleView(t, base);
            forall i | 0 <= i < 6 && IsRelSection(n, v, i) ::
              base + 440 <= SectionAddr(n, v, i) && SectionAddr(n, v, i) + SectionSize(n, v, i) <= base + 488
  {
    hide Word, Half, Byte, CString, LoadedSample, SectionHeader, SectionNameAt, SectionName, SectionSize;
    LoadedSections(m, t, base);
  }

  lemma LoadedHook(m: Mem, t: word, dst: word)
    requires CopyAt(m, t, LOAD_ADDRESS)
    ensures var n, v := LoadedSample(m, t, LOAD_ADDRESS), SampleView(t, LOAD_ADDRESS);
            && Elf.FindAddr(n, v, "f") == Some(LOAD_ADDRESS + 0x801)
            && HooksOf(n, v, [Request("f", dst)], 1) == [ThumbHook(LOAD_ADDRESS + 0x801, dst)]
  {
    hide Word, LoadedSample, SymName, SymValue;
    LoadedSymbol(m, t, LOAD_ADDRESS);
    var n, v := LoadedSample(m, t, LOAD_ADDRESS), SampleView(t, LOAD_ADDRESS);
    assert FindSym(n, v, "f", 0) == 0;
    assert HooksOf(n, v, [Request("f", dst)], 0) == [];
  }

  lemma LoadedReady(m: Mem, t: word, fs: seq<DynLibFunction>, dst: word)
    requires CopyAt(m, t, LOAD_ADDRESS)
    ensures Ready(LoadedSample(m, t, LOAD_ADDRESS), SampleView(t, LOAD_ADDRESS), fs, [Request("f", dst)])
  {
    hide Word, Half, Byte, CString, LoadedSample, WellFormed, SymbolsExist, AllRelocs, HooksOf, Protected, Elf.FindAddr;
    var n, v := LoadedSample(m, t, LOAD_ADDRESS), SampleView(t, LOAD_ADDRESS);
    LoadedOk(m, t, LOAD_ADDRESS);
    LoadedRelocs(m, t, LOAD_ADDRESS, fs);
    SampleTargets(m, t, LOAD_ADDRESS, fs);
    LoadedHook(m, t, dst);
    forall x: int | LOAD_ADDRESS + SAMPLE_SIZE <= x < LOAD_ADDRESS + 0x2000
      ensures !Protected(n, v, x)
    {
      RestIsFree(m, t, LOAD_ADDRESS, x);
    }
  }

  /** A game without side effects. */
  const STILL: Effect := (w: word, m: Mem) => m

  lemma StillIsHarmless(keep: iset<int>)
    ensures Harmless(STILL, keep)
  {
  }

  lemma SampleFits(m: Mem, t: word, live: map<int, Block>)
    requires CopyFits(m, t, Sample(), live)
    ensures CopyAt(m, t, LOAD_ADDRESS) && forall u | u in live :: !Overlap(live[u], Block(t, SAMPLE_SIZE))
    ensures MapAll(m, t, Sample(), AllLoads(Sample())) == LoadedSample(m, t, LOAD_ADDRESS)
    ensures ImageOf(Sample(), t, LOAD_ADDRESS) == SampleView(t, LOAD_ADDRESS)
  {
    hide Word, Half, AllLoads, MapAll, ImageOf, LoadedSample;
    SampleImage(t, LOAD_ADDRESS);
    SampleMapAll(m, t);
  }

  /** The sample meets what main asks of a file, for any import table and any replacement of f. */
  lemma SampleReady(fs: seq<DynLibFunction>, dst: word, live: map<int, Block>)
    ensures var f := Sample();
            && FileOk(f) && HasMagic(f) && Supported(f) && |AllLoads(f)| == 2 && HasTables(f, LOAD_ADDRESS)
            && ReadyFile(f, fs, [Request("f", dst)], live) && HarmlessFile(STILL, f, [Request("f", dst)], live)
            && StoresClear(f, [], live)
  {
    hide Word, Half, Byte, Sample, HasMagic, FileOk, Supported, AllLoads, HasTables, MapAll, ImageOf, Kept, Ready;
    hide Harmless, CopyFits, CopyAt, LoadedSample, SampleView;
    SampleFileOk();
    SampleLoads();
    forall m: Mem, t: word | CopyFits(m, t, Sample(), live)
      ensures ReadyAt(m, t, Sample(), fs, [Request("f", dst)])
      ensures HarmlessAt(STILL, m, t, Sample(), [Request("f", dst)])
    {
      SampleFits(m, t, live);
      LoadedReady(m, t, fs, dst);
      StillIsHarmless(Kept(LoadedSample(m, t, LOAD_ADDRESS), SampleView(t, LOAD_ADDRESS), [Request("f", dst)]));
    }
  }

  /** A constructor that changes one byte. */
  function Pokes(a: int, b: byte): Effect {
    (w: word, m: Mem) => if 0 <= a < |m| then m[a := b] else m
  }

  lemma PokesHarmless(a: int, b: byte, keep: iset<int>)
    requires a !in keep
    ensures Harmless(Pokes(a, b), keep)
  {
  }

  /** Outside the image, only the file copy has to be left alone. */
  lemma KeptOfSample(m: Mem, t: word, dst: word, x: int)
    requires CopyAt(m, t, LOAD_ADDRESS) && !(LOAD_ADDRESS <= x < LOAD_ADDRESS + 0x2000)
    requires x in Kept(LoadedSample(m, t, LOAD_ADDRESS), SampleView(t, LOAD_ADDRESS), [Request("f", dst)])
    ensures t <= x < t + SAMPLE_SIZE
  {
    hide Word, Half, Byte, CString, LoadedSample, Protected, InInitArray, InSlot, InHook, WellFormed;
    var n, v, reqs := LoadedSample(m, t, LOAD_ADDRESS), SampleView(t, LOAD_ADDRESS), [Request("f", dst)];
    LoadedOk(m, t, LOAD_ADDRESS);
    LoadedReady(m, t, [], dst);
    KeptPlace(n, v, [], reqs, x);
  }

  /** What must be kept lies in the image or in the file copy. */
  lemma KeptPlace(n: Mem, v: Image, fs: seq<DynLibFunction>, reqs: seq<Request>, x: int)
    requires Ready(n, v, fs, reqs) && x in Kept(n, v, reqs)
    ensures v.elf <= x < v.elf + v.fileSize || v.base <= x < v.base + v.size
  {
    hide Word, Half, Byte, CString, Protected, InInitArray, InSlot;
    hide InHook, WellFormed, AllRelocs, HooksOf, TargetsClear;
    if Protected(n, v, x) {
      ProtectedInImage(n, v, x);
    } else if InInitArray(n, v, x) {
      ArrayInImage(n, v, x);
    } else if InSlot(n, v, x) {
      SlotsInImage(n, v, fs, x);
    } else {
      HooksInImage(n, v, reqs, x);
    }
  }

  lemma ProtectedInImage(n: Mem, v: Image, x: int)
    requires WellFormed(n, v) && Protected(n, v, x)
    ensures v.elf <= x < v.elf + v.fileSize || v.base <= x < v.base + v.size
  {
    hide Word, Half, Byte, CString, SectionHeader, SectionName;
    if i :| 0 <= i < SectionCount(n, v) && IsRelSection(n, v, i)
            && SectionAddr(n, v, i) <= x < SectionAddr(n, v, i) + SectionSize(n, v, i) {
      RelPlace(n, v, i);
    }
  }

  lemma ArrayInImage(n: Mem, v: Image, x: int)
    requires WellFormed(n, v) && InInitArray(n, v, x)
    ensures v.base <= x < v.base + v.size
  {
    hide Word, Half, Byte, CString, SectionHeader, SectionName;
    var i :| 0 <= i < SectionCount(n, v) && IsInitArray(n, v, i)
             && SectionAddr(n, v, i) <= x < SectionAddr(n, v, i) + SectionSize(n, v, i);
    assert IsLoadedSection(n, v, i);
    assert SectionAddr(n, v, i) == v.base + Word(n, SectionHeader(v, i) + 12);
  }

  lemma SlotsInImage(n: Mem, v: Image, fs: seq<DynLibFunction>, x: int)
    requires WellFormed(n, v) && TargetsClear(n, v, AllRelocs(n, v, fs)) && InSlot(n, v, x)
    ensures v.base <= x < v.base + v.size
  {
    hide Word, Half, Byte, CString, WellFormed, TargetsClear, AllRelocs, EntryAt, EntryCount, SlotAddress, Entry;
    var i, j :| IsSlot(n, v, i, j) && SlotAddress(n, v, i, j) <= x < SlotAddress(n, v, i, j) + 4;
    SlotEntry(n, v, fs, i, j);
    TargetInImage(n, v, fs, i, j);
  }

  lemma HooksInImage(n: Mem, v: Image, reqs: seq<Request>, x: int)
    requires HooksClear(n, v, HooksOf(n, v, reqs, |reqs|)) && InHook(n, v, reqs, x)
    ensures v.base <= x < v.base + v.size
  {
    hide Word, Half, Byte, CString, HooksOf, Protected;
    var h :| h in HooksOf(n, v, reqs, |reqs|) && h.Covers(x);
    assert HookClear(n, v, h);
  }

  /** Constructors of the sample may write to any block that was live before. */
  lemma SampleConstructors(dst: word, live: map<int, Block>, u: int, a: int, b: byte)
    requires u in live && live[u].Has(a) && !(LOAD_ADDRESS <= a < LOAD_ADDRESS + 0x2000)
    ensures HarmlessFile(Pokes(a, b), Sample(), [Request("f", dst)], live)
  {
    hide Word, Half, Byte, Sample, AllLoads, MapAll, ImageOf;
    hide Kept, Harmless, CopyFits, CopyAt, LoadedSample, SampleView;
    hide Pokes;
    forall m: Mem, t: word | CopyFits(m, t, Sample(), live)
      ensures HarmlessAt(Pokes(a, b), m, t, Sample(), [Request("f", dst)])
    {
      SampleFits(m, t, live);
      var keep := Kept(LoadedSample(m, t, LOAD_ADDRESS), SampleView(t, LOAD_ADDRESS), [Request("f", dst)]);
      if a in keep {
        KeptOfSample(m, t, dst, a);
        assert false;
      }
      PokesHarmless(a, b, keep);
    }
  }

  /** Entry j of section i writes at base + o, and the hook on f is elsewhere. */
  lemma EntryPlace(m: Mem, t: word, dst: word, i: int, j: int, at: int, o: int)
    requires CopyAt(m, t, LOAD_ADDRESS) && 0 <= o && o + 4 <= 0x2000 && (0x810 <= o || o + 4 <= 0x800)
    requires var n, v := LoadedSample(m, t, LOAD_ADDRESS), SampleView(t, LOAD_ADDRESS);
             EntryAt(n, v, i, j) == at && Word(n, at) == o
    ensures var n, v := LoadedSample(m, t, LOAD_ADDRESS), SampleView(t, LOAD_ADDRESS);
            && SlotAddress(n, v, i, j) == LOAD_ADDRESS + o
            && SlotUnhooked(n, v, HooksOf(n, v, [Request("f", dst)], 1), i, j)
  {
    hide Word, Half, Byte, CString, LoadedSample, HooksOf, EntryAt, Elf.FindAddr;
    LoadedHook(m, t, dst);
  }

  /** Branches through its GOT slot and its PLT slot for f reach the replacement. */
  lemma SampleLands(m: Mem, t: word, fs: seq<DynLibFunction>, dst: word)
    requires CopyAt(m, t, LOAD_ADDRESS)
    ensures var n, v, reqs := LoadedSample(m, t, LOAD_ADDRESS), SampleView(t, LOAD_ADDRESS), [Request("f", dst)];
            var last := Final(n, v, fs, reqs);
            && IsSlot(n, v, 2, 0) && Word(last, 0x98001008) == 0x98000801
            && IsSlot(n, v, 3, 0) && Word(last, 0x98001000) == 0x98000801
            && Reaches(last, BranchTo(0x98000801), BranchTo(dst))
  {
    hide Word, Half, Byte, CString, LoadedSample, Ready, Final, Reaches, BranchTo, HooksOf, Entry, EntryCount, EntryAt;
    hide Elf.FindAddr, SymDefined, SymValue, SlotUnhooked, Kept, SymName;
    var n, v, reqs := LoadedSample(m, t, LOAD_ADDRESS), SampleView(t, LOAD_ADDRESS), [Request("f", dst)];
    LoadedReady(m, t, fs, dst);
    LoadedGot(m, t, LOAD_ADDRESS, fs);
    LoadedSlot(m, t, LOAD_ADDRESS, fs);
    LoadedCounts(m, t, LOAD_ADDRESS);
    LoadedSections(m, t, LOAD_ADDRESS);
    LoadedSymbol(m, t, LOAD_ADDRESS);
    LoadedHook(m, t, dst);
    AgreesWithItself(Final(n, v, fs, reqs), v, Kept(n, v, reqs));
    EntryPlace(m, t, dst, 2, 0, LOAD_ADDRESS + 440, 0x1008);
    EntryPlace(m, t, dst, 3, 0, LOAD_ADDRESS + 472, 0x1000);
    BranchThroughSlot(n, v, fs, reqs, Final(n, v, fs, reqs), 2, 0);
    BranchThroughSlot(n, v, fs, reqs, Final(n, v, fs, reqs), 3, 0);
    assert reqs[0].name == "f";
  }

  lemma AgreesWithItself(n: Mem, v: Image, keep: iset<int>)
    ensures Agreeing(n, n, v, keep)
  {
  }

  /** The slot for g holds the first import of that name, or its own offset. */
  lemma SampleImport(m: Mem, t: word, fs: seq<DynLibFunction>, dst: word)
    requires CopyAt(m, t, LOAD_ADDRESS)
    ensures var n, v := LoadedSample(m, t, LOAD_ADDRESS), SampleView(t, LOAD_ADDRESS);
            && IsSlot(n, v, 3, 1)
            && Word(Final(n, v, fs, [Request("f", dst)]), 0x98001018) ==
               match Bound(fs, "g") case Some(func) => func case None => 0x1018
  {
    hide Word, Half, Byte, CString, LoadedSample, Ready, Final, Reaches, BranchTo, HooksOf, Entry, EntryCount, EntryAt;
    hide Elf.FindAddr, SymDefined, SymValue, SlotUnhooked, Kept, SymName;
    var n, v, reqs := LoadedSample(m, t, LOAD_ADDRESS), SampleView(t, LOAD_ADDRESS), [Request("f", dst)];
    LoadedReady(m, t, fs, dst);
    LoadedImport(m, t, LOAD_ADDRESS, fs);
    LoadedCounts(m, t, LOAD_ADDRESS);
    LoadedSections(m, t, LOAD_ADDRESS);
    LoadedUndefined(m, t, LOAD_ADDRESS);
    AgreesWithItself(Final(n, v, fs, reqs), v, Kept(n, v, reqs));
    EntryPlace(m, t, dst, 3, 1, LOAD_ADDRESS + 480, 0x1018);
    BranchThroughSlot(n, v, fs, reqs, Final(n, v, fs, reqs), 3, 1);
  }

  /** The word for g, which the import table may provide, ends as the load address instead. */
  lemma SampleAbsolute(m: Mem, t: word, fs: seq<DynLibFunction>, dst: word, func: word)
    requires CopyAt(m, t, LOAD_ADDRESS) && Bound(fs, "g") == Some(func) && func != LOAD_ADDRESS
    ensures var n, v := LoadedSample(m, t, LOAD_ADDRESS), SampleView(t, LOAD_ADDRESS);
            && IsAbsolute(n, v, 2, 1) && SymbolAddress(n, v, fs, 1) == func
            && Word(Final(n, v, fs, [Request("f", dst)]), 0x98001004) == 0x98000000
  {
    hide Word, Half, Byte, CString, LoadedSample, WellFormed, SymbolsExist, AllRelocs, HooksOf, Entry, EntryCount;
    hide TargetsClear, Disjoint, HooksClear, DisjointHooks, SlotUnhooked, SlotAddress, SymDefined, SymName, SymValue;
    hide ApplyAll, ApplyHooks, EntryAt;
    var n, v, reqs := LoadedSample(m, t, LOAD_ADDRESS), SampleView(t, LOAD_ADDRESS), [Request("f", dst)];
    LoadedReady(m, t, fs, dst);
    LoadedUndefined(m, t, LOAD_ADDRESS);
    LoadedData(m, t, LOAD_ADDRESS);
    LoadedAbsolute(m, t, LOAD_ADDRESS, fs);
    LoadedCounts(m, t, LOAD_ADDRESS);
    LoadedSections(m, t, LOAD_ADDRESS);
    EntryPlace(m, t, dst, 2, 1, LOAD_ADDRESS + 448, 0x1004);
    AbsoluteWord(n, v, fs, HooksOf(n, v, reqs, 1), 2, 1);
  }

  /** The 16 that the file has in the slot of f is lost. */
  lemma SampleInPlace(m: Mem, t: word, fs: seq<DynLibFunction>, dst: word)
    requires CopyAt(m, t, LOAD_ADDRESS)
    ensures var n, v := LoadedSample(m, t, LOAD_ADDRESS), SampleView(t, LOAD_ADDRESS);
            && Word(n, LOAD_ADDRESS + 0x1000) == 16
            && Word(Final(n, v, fs, [Request("f", dst)]), LOAD_ADDRESS + 0x1000) != Add(16, SlotValue(n, v, fs, 3, 0))
  {
    hide Word, Half, Byte, CString, LoadedSample, WellFormed, SymbolsExist, AllRelocs, HooksOf, Entry, EntryCount;
    hide TargetsClear, Disjoint, HooksClear, DisjointHooks, SlotUnhooked, SlotAddress, SlotValue;
    hide ApplyAll, ApplyHooks, EntryAt;
    var n, v, reqs := LoadedSample(m, t, LOAD_ADDRESS), SampleView(t, LOAD_ADDRESS), [Request("f", dst)];
    LoadedReady(m, t, fs, dst);
    LoadedData(m, t, LOAD_ADDRESS);
    LoadedSlot(m, t, LOAD_ADDRESS, fs);
    LoadedCounts(m, t, LOAD_ADDRESS);
    LoadedSections(m, t, LOAD_ADDRESS);
    EntryPlace(m, t, dst, 3, 0, LOAD_ADDRESS + 472, 0x1000);
    InPlaceIgnored(n, v, fs, HooksOf(n, v, reqs, 1), 3, 0);
  }

  /** The relative words, which are its constructors. */
  lemma SampleRelative(m: Mem, t: word, fs: seq<DynLibFunction>, dst: word)
    requires CopyAt(m, t, LOAD_ADDRESS)
    ensures var n, v := LoadedSample(m, t, LOAD_ADDRESS), SampleView(t, LOAD_ADDRESS);
            var last := Final(n, v, fs, [Request("f", dst)]);
            && IsRelative(n, v, 2, 2) && Word(n, 0x9800100c) == 0x801 && Word(last, 0x9800100c) == 0x98000801
            && IsRelative(n, v, 2, 3) && Word(n, 0x98001014) == 0x811 && Word(last, 0x98001014) == 0x98000811
  {
    hide Word, Half, Byte, CString, LoadedSample, WellFormed, SymbolsExist, AllRelocs, HooksOf, Entry, EntryCount;
    hide TargetsClear, Disjoint, HooksClear, DisjointHooks, SlotUnhooked, SlotAddress, ApplyAll, ApplyHooks, EntryAt;
    var n, v, reqs := LoadedSample(m, t, LOAD_ADDRESS), SampleView(t, LOAD_ADDRESS), [Request("f", dst)];
    LoadedReady(m, t, fs, dst);
    LoadedData(m, t, LOAD_ADDRESS);
    LoadedFirst(m, t, LOAD_ADDRESS, fs);
    LoadedSecond(m, t, LOAD_ADDRESS, fs);
    LoadedCounts(m, t, LOAD_ADDRESS);
    LoadedSections(m, t, LOAD_ADDRESS);
    EntryPlace(m, t, dst, 2, 2, LOAD_ADDRESS + 456, 0x100c);
    EntryPlace(m, t, dst, 2, 3, LOAD_ADDRESS + 464, 0x1014);
    RelativeWord(n, v, fs, HooksOf(n, v, reqs, 1), 2, 2);
    RelativeWord(n, v, fs, HooksOf(n, v, reqs, 1), 2, 3);
  }

  /** The word between them is left alone. */
  lemma SampleGap(m: Mem, t: word, fs: seq<DynLibFunction>, dst: word)
    requires CopyAt(m, t, LOAD_ADDRESS)
    ensures Word(Final(LoadedSample(m, t, LOAD_ADDRESS), SampleView(t, LOAD_ADDRESS), fs, [Request("f", dst)]),
                 0x98001010) == 0
  {
    hide Word, Half, Byte, CString, LoadedSample, WellFormed, AllRelocs, HooksOf, ApplyAll, ApplyHooks, Elf.FindAddr;
    hide Import;
    var n, v, reqs := LoadedSample(m, t, LOAD_ADDRESS), SampleView(t, LOAD_ADDRESS), [Request("f", dst)];
    LoadedData(m, t, LOAD_ADDRESS);
    LoadedRelocs(m, t, LOAD_ADDRESS, fs);
    LoadedHook(m, t, dst);
    ImportPlace(fs);
    UntouchedWord(n, LOAD_ADDRESS, Relocations(fs), 0x98001010);
    HooksKeepWord(ApplyAll(n, LOAD_ADDRESS, Relocations(fs)), HooksOf(n, v, reqs, 1), 0x98001010);
  }

  lemma ImportPlace(fs: seq<DynLibFunction>)
    ensures Import(fs).SetImport? && Import(fs).offset == 0x1018
  {
  }

  /** What so_excute_init_array calls: the two that are not null, once each. */
  lemma SampleCalls(m: Mem, t: word, fs: seq<DynLibFunction>, dst: word)
    requires CopyAt(m, t, LOAD_ADDRESS)
    ensures var n, v := LoadedSample(m, t, LOAD_ADDRESS), SampleView(t, LOAD_ADDRESS);
            Constructors(Final(n, v, fs, [Request("f", dst)]), v) == [0x98000801, 0x98000811]
  {
    hide Word, Half, Byte, CString, LoadedSample, AllRelocs, HooksOf, Elf.FindAddr, Ready, Final, SectionAddr;
    hide SectionName, SectionSize, NonNull;
    var n, v, reqs := LoadedSample(m, t, LOAD_ADDRESS), SampleView(t, LOAD_ADDRESS), [Request("f", dst)];
    var last := Final(n, v, fs, reqs);
    LoadedReady(m, t, fs, dst);
    LoadedOk(m, t, LOAD_ADDRESS);
    LoadedSections(m, t, LOAD_ADDRESS);
    SampleSame(m, t, fs, dst);
    SampleRelative(m, t, fs, dst);
    SampleGap(m, t, fs, dst);
    InitPlace(m, t);
    ThreeEntries(last, v, 4);
    assert ConstructorsUpTo(last, v, 4) == [] by {
      assert ConstructorsUpTo(last, v, 0) == [] && ConstructorsUpTo(last, v, 1) == [];
      assert ConstructorsUpTo(last, v, 2) == [] && ConstructorsUpTo(last, v, 3) == [];
    }
    assert ConstructorsUpTo(last, v, 5) == [0x98000801, 0x98000811];
  }

  /** The section headers still read as before. */
  lemma SampleSame(m: Mem, t: word, fs: seq<DynLibFunction>, dst: word)
    requires CopyAt(m, t, LOAD_ADDRESS)
    ensures var n, v := LoadedSample(m, t, LOAD_ADDRESS), SampleView(t, LOAD_ADDRESS);
            var last := Final(n, v, fs, [Request("f", dst)]);
            && SectionCount(last, v) == SectionCount(n, v)
            && forall i | 0 <= i < 6 ::
                 && SectionName(last, v, i) == SectionName(n, v, i)
                 && SectionAddr(last, v, i) == SectionAddr(n, v, i) && SectionSize(last, v, i) == SectionSize(n, v, i)
  {
    hide Word, Half, Byte, CString, LoadedSample, AllRelocs, HooksOf, Elf.FindAddr, ApplyAll, ApplyHooks, WellFormed;
    hide SectionName, SectionAddr, SectionSize, SectionCount, SameCopy, SameTables, SectionsOk, SymbolTableOk;
    var n, v, reqs := LoadedSample(m, t, LOAD_ADDRESS), SampleView(t, LOAD_ADDRESS), [Request("f", dst)];
    var last := Final(n, v, fs, reqs);
    LoadedReady(m, t, fs, dst);
    LoadedSectionsOk(m, t, LOAD_ADDRESS);
    LoadedSections(m, t, LOAD_ADDRESS);
    HooksSoFar(n, v, fs, reqs, 1);
    TablesAreParts(n, last, v);
    SameCount(n, last, v);
    forall i | 0 <= i < 6
      ensures SectionName(last, v, i) == SectionName(n, v, i)
      ensures SectionAddr(last, v, i) == SectionAddr(n, v, i) && SectionSize(last, v, i) == SectionSize(n, v, i)
    {
      SameSection(n, last, v, i);
    }
  }

  lemma InitPlace(m: Mem, t: word)
    requires CopyAt(m, t, LOAD_ADDRESS)
    ensures SectionAddr(LoadedSample(m, t, LOAD_ADDRESS), SampleView(t, LOAD_ADDRESS), 4) == 0x9800100c
  {
    hide Word, LoadedSample, SectionHeader;
    LoadedSections(m, t, LOAD_ADDRESS);
  }

  lemma ThreeEntries(n: Mem, v: Image, i: int)
    requires Word(n, SectionAddr(n, v, i)) == 0x98000801 && Word(n, SectionAddr(n, v, i) + 4) == 0
    requires Word(n, SectionAddr(n, v, i) + 8) == 0x98000811
    ensures NonNull(n, v, i, 3) == [0x98000801, 0x98000811]
  {
    hide Word, SectionAddr;
    assert NonNull(n, v, i, 0) == [];
    assert NonNull(n, v, i, 1) == [0x98000801];
    assert NonNull(n, v, i, 2) == [0x98000801];
  }

  /** And its mapped text segment, which holds the program headers, is not what the file says. */
  lemma SampleDiffers(m: Mem, t: word)
    requires CopyAt(m, t, LOAD_ADDRESS)
    ensures !Copied(LoadedSample(m, t, LOAD_ADDRESS), LOAD_ADDRESS, Sample(), 0, SAMPLE_SIZE)
  {
    hide Word, Half, Byte, CString, Sample, HeadersOk, HasMagic, MapAll, AllLoads, SegmentAt, Copied;
    SampleMapped(m, t, LOAD_ADDRESS);
    SampleMapAll(m, t);
    SampleHeader();
    SampleLoads();
    TextIs();
    DataIs();
    TextEqualsFile(m, t, Sample(), 0, 1, TEXT, DATA);
  }

  /* At two addresses */

  /** The relocated p_vaddr is at bytes 60 to 63 of the image. */
  lemma SampleVaddr(o: int)
    requires HoldsVaddr(Sample(), 0, 1, o)
    ensures 60 <= o < 64
  {
    hide Word, Half, Sample, SegmentAt;
    SampleHeader();
    TextIs();
    DataIs();
  }

  lemma ProtectedPlace(m: Mem, t: word, base: word, x: int)
    requires CopyAt(m, t, base) && Protected(LoadedSample(m, t, base), SampleView(t, base), x)
    ensures base <= x < base + 0x2000 ==> base + 404 <= x < base + SAMPLE_SIZE
  {
    hide Word, Half, Byte, CString, LoadedSample, SectionHeader, SectionNameAt, SectionName;
    LoadedSections(m, t, base);
  }

  lemma SampleVaddrClear(m: Mem, t: word, base: word, fs: seq<DynLibFunction>)
    requires CopyAt(m, t, base)
    ensures VaddrClear(LoadedSample(m, t, base), SampleView(t, base), Sample(), 0, 1, Relocations(fs))
  {
    hide Word, Half, Byte, CString, Sample, Protected, HoldsVaddr, LoadedSample, Import;
    var n, v := LoadedSample(m, t, base), SampleView(t, base);
    ImportPlace(fs);
    forall a | v.base <= a < v.base + v.size && Protected(n, v, a)
      ensures !HoldsVaddr(Sample(), 0, 1, a - v.base)
    {
      ProtectedPlace(m, t, base, a);
      if HoldsVaddr(Sample(), 0, 1, a - v.base) {
        SampleVaddr(a - v.base);
        assert false;
      }
    }
    SampleSlotClear();
  }

  lemma SampleTargets(m: Mem, t: word, base: word, fs: seq<DynLibFunction>)
    requires CopyAt(m, t, base)
    ensures TargetsClear(LoadedSample(m, t, base), SampleView(t, base), Relocations(fs))
    ensures Disjoint(base, Relocations(fs))
  {
    hide Word, Half, Byte, CString, Protected, LoadedSample, Import;
    ImportPlace(fs);
    forall x: int | base + 0x1000 <= x < base + 0x101c
      ensures !Protected(LoadedSample(m, t, base), SampleView(t, base), x)
    {
      RestIsFree(m, t, base, x);
    }
  }

  lemma SampleFound(m: Mem, t: word, base: word)
    requires CopyAt(m, t, base)
    ensures Found(LoadedSample(m, t, base), SampleView(t, base))
  {
    hide Word, Half, Byte, CString, LoadedSample, WellFormed;
    LoadedOk(m, t, base);
  }

  /** Any two loads of the sample are an instance of the two-run theorem. */
  lemma SampleTwice(m: Mem, t: word, base: word, m': Mem, t': word, base': word, fs: seq<DynLibFunction>)
    requires CopyAt(m, t, base) && CopyAt(m', t', base')
    ensures var n, n' := LoadedSample(m, t, base), LoadedSample(m', t', base');
            && AllRelocs(n, SampleView(t, base), fs) == AllRelocs(n', SampleView(t', base'), fs) == Relocations(fs)
            && MovedBy(ApplyAll(n, base, Relocations(fs)), base,
                       ApplyAll(n', base', Relocations(fs)), base', Relocations(fs))
  {
    hide Word, Half, Byte, CString, Sample, Found, SymbolsExist, AllRelocs, ApplyAll, LoadedSample, CopyAt, Mapped;
    hide MovedBy, OnlyTargets, ImageOf, Mappable, VaddrClear, TargetsClear, Disjoint, AllLoads, SampleView;
    SampleLoads();
    SampleMapped(m, t, base);
    SampleMapped(m', t', base');
    SampleImage(t, base);
    SampleImage(t', base');
    SampleFound(m, t, base);
    SampleFound(m', t', base');
    LoadedRelocs(m, t, base, fs);
    SampleTargets(m, t, base, fs);
    SampleVaddrClear(m, t, base, fs);
    TwoLoads.TwoLoads(m, t, m', t', Sample(), 0, 1, base, base', fs);
  }

  lemma SampleSlotClear()
    ensures forall o: int | 0x1000 <= o < 0x101c :: !HoldsVaddr(Sample(), 0, 1, o)
  {
    hide HoldsVaddr, Sample;
    forall o: int | 0x1000 <= o < 0x101c
      ensures !HoldsVaddr(Sample(), 0, 1, o)
    {
      if HoldsVaddr(Sample(), 0, 1, o) {
        SampleVaddr(o);
        assert false;
      }
    }
  }
}
