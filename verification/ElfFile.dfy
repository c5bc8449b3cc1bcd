/** The file that so_load is given: headers, the segments it maps, and what it requires of them. */
module ElfFile {
  import opened Memory
  import opened Elf

  const LOAD_ADDRESS: word := 0x98000000
  const PT_LOAD := 1

  predicate HasMagic(f: Mem) {
    Byte(f, 0) == 0x7f && Byte(f, 1) == 'E' as int && Byte(f, 2) == 'L' as int && Byte(f, 3) == 'F' as int
  }

  /** ELFMAG */
  lemma MagicIs(f: Mem)
    requires 4 <= |f|
    ensures HasMagic(f) <==> f[..4] == [0x7f, 0x45, 0x4c, 0x46]
  {
    assert f[..4] == [f[0], f[1], f[2], f[3]];
  }

  /** (p_flags & PF_X) == PF_X */
  lemma ExecutableIs(s: Segment)
    ensures s.Executable() <==> BitAnd(s.flags, 1, 32) == 1
  {
    AndZero(s.flags / 2, 31);
  }

  /* The file header */

  function HeaderTable(f: Mem): int { Word(f, 28) }

  function SectionTable(f: Mem): int { Word(f, 32) }

  function HeaderCount(f: Mem): nat { Half(f, 44) }

  function SectionsIn(f: Mem): nat { Half(f, 48) }

  /** The header of the section that holds section names. */
  function NameSection(f: Mem): int { SectionTable(f) + 40 * Half(f, 50) }

  function NameTable(f: Mem): int { Word(f, NameSection(f) + 16) }

  /* Program headers (32 bytes each) */

  /** blockSize is not in the file: it is the size of the block that so_load asks for. */
  datatype Segment = Segment(kind: word, offset: word, vaddr: word, fileSize: word, memSize: word,
                             flags: word, align: word, blockSize: word)
  {
    predicate Executable() { flags % 2 == 1 }

    /** The file range exists and fits the memory size, the alignment is 0 or a power of two, and
        rounding the size up does not wrap. */
    ghost predicate Ok(f: Mem) {
      && offset + fileSize <= |f|
      && fileSize <= memSize
      && (align == 0 || exists k: nat :: k < 32 && align == Pow2(k) && memSize + Pow2(k) - 1 < SPACE)
    }
  }

  function HeaderAt(f: Mem, i: int): int { HeaderTable(f) + 32 * i }

  function SegmentAt(f: Mem, i: int): Segment {
    var p := HeaderAt(f, i);
    Segment(Word(f, p), Word(f, p + 4), Word(f, p + 8), Word(f, p + 16), Word(f, p + 20),
            Word(f, p + 24), Word(f, p + 28),
            AlignMem(Word(f, p + 20), Word(f, p + 28)))
  }

  /** The indices of the PT_LOAD headers among the first n. */
  function Loads(f: Mem, n: nat): (ls: seq<int>)
    ensures forall i | i in ls :: 0 <= i < n
  {
    if n == 0 then []
    else if SegmentAt(f, n - 1).kind == PT_LOAD then Loads(f, n - 1) + [n - 1]
    else Loads(f, n - 1)
  }

  function AllLoads(f: Mem): (ls: seq<int>)
  {
    Loads(f, HeaderCount(f))
  }

  /** The PT_LOAD headers, each once, in the order of the table. */
  lemma {:induction false} LoadsAre(f: Mem, n: nat)
    ensures forall i :: i in Loads(f, n) <==> 0 <= i < n && SegmentAt(f, i).kind == 1
    ensures forall a, b | 0 <= a < b < |Loads(f, n)| :: Loads(f, n)[a] < Loads(f, n)[b]
  {
    hide SegmentAt;
    if n > 0 {
      LoadsAre(f, n - 1);
      var rest := Loads(f, n - 1);
      forall a | 0 <= a < |rest|
        ensures rest[a] < n - 1
      {
        assert rest[a] in rest;
      }
    }
  }

  lemma {:induction false} LoadsGrow(f: Mem, i: nat, n: nat)
    requires i <= n
    ensures Loads(f, i) <= Loads(f, n)
    decreases n
  {
    hide SegmentAt;
    if i < n {
      LoadsGrow(f, i, n - 1);
    }
  }

  lemma BlockHoldsSegment(f: Mem, s: Segment)
    requires s.Ok(f) && s.blockSize == AlignMem(s.memSize, s.align)
    ensures s.memSize <= s.blockSize || s.blockSize == 0
  {
    if s.align == 0 {
      AlignZero(s.memSize);
    } else {
      var k: nat :| k < 32 && s.align == Pow2(k) && s.memSize + Pow2(k) - 1 < SPACE;
      AlignIsLeastMultiple(s.memSize, k);
    }
  }

  /* Well-formed files */

  /** The header tables are inside the file and the program headers, which so_load updates in
      place, overlap neither the other headers nor the section names. */
  ghost predicate HeadersOk(f: Mem) {
    var ph, phEnd := HeaderTable(f), HeaderTable(f) + 32 * HeaderCount(f);
    var sh, shEnd := SectionTable(f), SectionTable(f) + 40 * SectionsIn(f);
    && 52 <= |f| && 52 <= ph && phEnd <= |f|
    && shEnd <= |f| && NameSection(f) + 40 <= |f|
    && (phEnd <= sh || (shEnd <= ph && NameSection(f) + 40 <= ph))
    && forall i | 0 <= i < SectionsIn(f) :: NameOk(f, i)
  }

  function NameOf(f: Mem, i: int): string {
    CString(f, NameTable(f) + Word(f, SectionTable(f) + 40 * i))
  }

  /** The last of the first n sections that has the name, or -1: later sections overwrite what
      so_load remembers of earlier ones. */
  function LastNamed(f: Mem, name: string, n: nat): (k: int)
    ensures -1 <= k < n
    ensures k >= 0 ==> NameOf(f, k) == name
    ensures forall i | k < i < n :: NameOf(f, i) != name
  {
    if n == 0 then -1
    else if NameOf(f, n - 1) == name then n - 1
    else LastNamed(f, name, n - 1)
  }

  /** The loaded address of that section, or NULL. */
  function TableAddress(f: Mem, base: word, name: string, n: nat): word {
    var k := LastNamed(f, name, n);
    if k < 0 then 0 else Add(base, Word(f, SectionTable(f) + 40 * k + 12))
  }

  function TableSize(f: Mem, name: string, n: nat): word {
    var k := LastNamed(f, name, n);
    if k < 0 then 0 else Word(f, SectionTable(f) + 40 * k + 20)
  }

  function SymbolCount(f: Mem, n: nat): nat { TableSize(f, ".dynsym", n) / 16 }

  /** One more section. */
  lemma TableStep(f: Mem, base: word, name: string, i: nat)
    ensures TableAddress(f, base, name, 0) == 0 && LastNamed(f, name, 0) < 0
    ensures TableAddress(f, base, name, i + 1) ==
      if NameOf(f, i) == name then Add(base, Word(f, SectionTable(f) + 40 * i + 12)) else TableAddress(f, base, name, i)
    ensures LastNamed(f, name, i + 1) == if NameOf(f, i) == name then i else LastNamed(f, name, i)
  {
    hide Word, Add, NameOf;
  }

  predicate NameOk(f: Mem, i: int) {
    var a := NameTable(f) + Word(f, SectionTable(f) + 40 * i);
    StringIn(f, a, 0, |f|) && (a + |CString(f, a)| < HeaderTable(f) || HeaderTable(f) + 32 * HeaderCount(f) <= a)
  }

  /** The data segment fits the block that so_load allocates for it behind the text block. */
  predicate DataFits(text: Segment, data: Segment) {
    text.blockSize <= data.vaddr && data.vaddr + data.memSize <= text.blockSize + data.blockSize
  }

  ghost predicate SegmentsOk(f: Mem) {
    var ls := AllLoads(f);
    && (forall i | i in ls :: SegmentAt(f, i).Ok(f))
    && (|ls| >= 1 && SegmentAt(f, ls[0]).Executable() ==> SegmentAt(f, ls[0]).vaddr == 0)
    && (|ls| >= 2 && SegmentAt(f, ls[0]).Executable() && !SegmentAt(f, ls[1]).Executable() ==>
          DataFits(SegmentAt(f, ls[0]), SegmentAt(f, ls[1])))
  }

  /** The files so_load can be given.  A file without the ELF magic is an error it handles. */
  ghost predicate FileOk(f: Mem) {
    4 <= |f| <= SPACE - 0x1000 && (HasMagic(f) ==> HeadersOk(f) && SegmentsOk(f))
  }

  /** Loadable segments in the order so_load supports: at most one executable one, then at most
      one other. */
  predicate Supported(f: Mem) {
    var ls := AllLoads(f);
    && |ls| <= 2
    && (|ls| >= 1 ==> SegmentAt(f, ls[0]).Executable())
    && (|ls| == 2 ==> !SegmentAt(f, ls[1]).Executable())
  }

  /** What SegmentsOk says of the first PT_LOAD header. */
  lemma FirstSegment(f: Mem, i: int)
    requires SegmentsOk(f) && 0 <= i < HeaderCount(f) && SegmentAt(f, i).kind == PT_LOAD && Loads(f, i) == []
    ensures Loads(f, i + 1) == [i] && [i] <= AllLoads(f)
    ensures var s := SegmentAt(f, i);
            && s.offset + s.fileSize <= |f|
            && (s.Executable() ==> s.vaddr == 0) && (0 < s.blockSize ==> s.fileSize <= s.blockSize)
  {
    hide Word, AlignMem;
    LoadsGrow(f, i + 1, HeaderCount(f));
    assert AllLoads(f)[0] == i && i in AllLoads(f);
    BlockHoldsSegment(f, SegmentAt(f, i));
  }

  /** And of the second. */
  lemma SecondSegment(f: Mem, x: int, i: int)
    requires SegmentsOk(f) && 0 <= i < HeaderCount(f) && SegmentAt(f, i).kind == PT_LOAD && Loads(f, i) == [x]
    ensures Loads(f, i + 1) == [x, i] && [x, i] <= AllLoads(f) && x != i
    ensures var s := SegmentAt(f, i);
            && s.offset + s.fileSize <= |f|
            && (SegmentAt(f, x).Executable() && !s.Executable() ==>
                DataFits(SegmentAt(f, x), s) && s.fileSize <= s.memSize)
  {
    hide Word, AlignMem;
    LoadsGrow(f, i + 1, HeaderCount(f));
    assert x in Loads(f, i);
    assert AllLoads(f)[0] == x && AllLoads(f)[1] == i && i in AllLoads(f);
  }

  /** And of one that is alone. */
  lemma OneSegment(f: Mem, x: int)
    requires SegmentsOk(f) && AllLoads(f) == [x] && SegmentAt(f, x).Executable() && 0 < SegmentAt(f, x).blockSize
    ensures 0 <= x < HeaderCount(f)
    ensures var text := SegmentAt(f, x);
            text.vaddr == 0 && text.fileSize <= text.blockSize && text.offset + text.fileSize <= |f|
  {
    hide Word, AlignMem, Half;
    assert x in AllLoads(f);
    BlockHoldsSegment(f, SegmentAt(f, x));
  }

  /** And of both. */
  lemma TwoSegments(f: Mem, x: int, d: int)
    requires SegmentsOk(f) && AllLoads(f) == [x, d] && SegmentAt(f, x).Executable() && !SegmentAt(f, d).Executable()
    requires 0 < SegmentAt(f, x).blockSize
    ensures 0 <= x < HeaderCount(f) && 0 <= d < HeaderCount(f) && x != d && DataFits(SegmentAt(f, x), SegmentAt(f, d))
    ensures var text, data := SegmentAt(f, x), SegmentAt(f, d);
            && text.vaddr == 0 && text.fileSize <= text.blockSize && data.fileSize <= data.memSize
            && text.offset + text.fileSize <= |f| && data.offset + data.fileSize <= |f|
  {
    hide Word, AlignMem, Half;
    assert x in AllLoads(f) && d in AllLoads(f);
    BlockHoldsSegment(f, SegmentAt(f, x));
    LoadsDiffer(f, HeaderCount(f), x, d);
  }

  lemma {:induction false} LoadsDiffer(f: Mem, n: nat, x: int, d: int)
    requires Loads(f, n) == [x, d]
    ensures x != d
  {
    hide SegmentAt;
    if SegmentAt(f, n - 1).kind == PT_LOAD {
      assert Loads(f, n - 1) + [n - 1] == [x, d];
      assert Loads(f, n - 1) == [x, d][..1] == [x];
      assert x in Loads(f, n - 1);
    } else {
      LoadsDiffer(f, n - 1, x, d);
    }
  }

  predicate FirstIsData(f: Mem) {
    AllLoads(f) != [] && !SegmentAt(f, AllLoads(f)[0]).Executable()
  }

  lemma SupportedIsNotData(f: Mem)
    requires Supported(f)
    ensures !FirstIsData(f)
  {
  }

  lemma FileHeaderOk(f: Mem)
    requires HeadersOk(f)
    ensures 52 <= |f| && 52 <= HeaderTable(f) && SectionTable(f) <= |f| && HeaderTable(f) <= |f|
    ensures SectionTable(f) <= NameSection(f) && NameSection(f) + 40 <= |f|
    ensures NameSection(f) + 40 <= HeaderTable(f) || HeaderTable(f) + 32 * HeaderCount(f) <= NameSection(f)
  {
  }

  /** A PT_LOAD header comes right after those before it. */
  lemma NextLoad(f: Mem, i: int)
    requires 0 <= i < HeaderCount(f) && SegmentAt(f, i).kind == PT_LOAD
    ensures |Loads(f, i)| < |AllLoads(f)| && AllLoads(f)[|Loads(f, i)|] == i
    ensures Loads(f, i) <= AllLoads(f)
  {
    hide SegmentAt;
    LoadsGrow(f, i + 1, HeaderCount(f));
    LoadsGrow(f, i, HeaderCount(f));
    assert Loads(f, i + 1) == Loads(f, i) + [i];
  }
}
