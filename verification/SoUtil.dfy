/** so_util.c: loading, relocation in place, constructors, symbol lookup.  The globals of the
    C file are the fields of class Loader. */
module SoUtil {
  import opened Memory
  import opened Options
  import opened Imports
  import opened Relocs
  import opened Elf
  import opened ElfFile
  import opened LoadedImage
  import opened Kernel

  /* Constructors */

  /** The non-null words among the first n of section i. */
  function NonNull(m: Mem, v: Image, i: int, n: nat): (cs: seq<word>) {
    if n == 0 then []
    else
      var w := Word(m, SectionAddr(m, v, i) + 4 * (n - 1));
      if w != 0 then NonNull(m, v, i, n - 1) + [w] else NonNull(m, v, i, n - 1)
  }

  predicate IsInitArray(m: Mem, v: Image, i: int) {
    SectionName(m, v, i) == ".init_array"
  }

  function ConstructorsUpTo(m: Mem, v: Image, n: nat): (cs: seq<word>) {
    if n == 0 then []
    else if IsInitArray(m, v, n - 1) then
      ConstructorsUpTo(m, v, n - 1) + NonNull(m, v, n - 1, SectionSize(m, v, n - 1) / 4)
    else ConstructorsUpTo(m, v, n - 1)
  }

  function Constructors(m: Mem, v: Image): (cs: seq<word>) {
    ConstructorsUpTo(m, v, SectionCount(m, v))
  }

  function InitEntry(m: Mem, v: Image, i: int, j: int): word { Word(m, SectionAddr(m, v, i) + 4 * j) }

  /** How many of the first n entries of section i are not null. */
  function CountNonNull(m: Mem, v: Image, i: int, n: nat): nat {
    if n == 0 then 0 else CountNonNull(m, v, i, n - 1) + if InitEntry(m, v, i, n - 1) != 0 then 1 else 0
  }

  /** That is the number of indices below n of entries that are not null. */
  lemma {:induction false} NonNullIsCardinality(m: Mem, v: Image, i: int, n: nat)
    ensures CountNonNull(m, v, i, n) == |set j | 0 <= j < n && InitEntry(m, v, i, j) != 0|
  {
    hide InitEntry;
    var s := set j | 0 <= j < n && InitEntry(m, v, i, j) != 0;
    if n == 0 {
      assert s == {};
    } else {
      NonNullIsCardinality(m, v, i, n - 1);
      var rest := set j | 0 <= j < n - 1 && InitEntry(m, v, i, j) != 0;
      assert s == if InitEntry(m, v, i, n - 1) != 0 then rest + {n - 1} else rest;
    }
  }

  /** Every non-null entry is called, in its turn; nothing else is. */
  lemma {:induction false} CalledInTurn(m: Mem, v: Image, i: int, n: nat, j: nat)
    requires j < n
    ensures |NonNull(m, v, i, n)| == CountNonNull(m, v, i, n)
    ensures InitEntry(m, v, i, j) != 0 ==>
      && CountNonNull(m, v, i, j) < |NonNull(m, v, i, n)|
      && NonNull(m, v, i, n)[CountNonNull(m, v, i, j)] == InitEntry(m, v, i, j)
  {
    hide Word, SectionAddr;
    if j < n - 1 {
      CalledInTurn(m, v, i, n - 1, j);
    } else if n > 1 {
      CalledInTurn(m, v, i, n - 1, 0);
    }
  }

  /** How many entries of the .init_array sections before section n are not null. */
  function ConstructorsBefore(m: Mem, v: Image, n: nat): nat {
    if n == 0 then 0
    else
      ConstructorsBefore(m, v, n - 1) +
        if IsInitArray(m, v, n - 1) then CountNonNull(m, v, n - 1, SectionSize(m, v, n - 1) / 4) else 0
  }

  lemma {:induction false} ConstructorsCount(m: Mem, v: Image, n: nat)
    ensures |ConstructorsUpTo(m, v, n)| == ConstructorsBefore(m, v, n)
  {
    hide Word, IsInitArray, SectionSize, InitEntry, SectionAddr;
    if n > 0 {
      ConstructorsCount(m, v, n - 1);
      NonNullCount(m, v, n - 1, SectionSize(m, v, n - 1) / 4);
    }
  }

  lemma {:induction false} NonNullCount(m: Mem, v: Image, i: int, n: nat)
    ensures |NonNull(m, v, i, n)| == CountNonNull(m, v, i, n)
  {
    hide Word, SectionAddr;
    if n > 0 {
      NonNullCount(m, v, i, n - 1);
    }
  }

  /** The whole list of calls: as many as there are non-null entries in all .init_array sections, and each
      of these at its place, after those of earlier sections and the earlier ones of its own. */
  lemma {:induction false} ConstructorAt(m: Mem, v: Image, n: nat, i: nat, j: nat)
    requires i < n && IsInitArray(m, v, i) && j < SectionSize(m, v, i) / 4 && InitEntry(m, v, i, j) != 0
    ensures |ConstructorsUpTo(m, v, n)| == ConstructorsBefore(m, v, n)
    ensures ConstructorsBefore(m, v, i) + CountNonNull(m, v, i, j) < ConstructorsBefore(m, v, n)
    ensures ConstructorsUpTo(m, v, n)[ConstructorsBefore(m, v, i) + CountNonNull(m, v, i, j)] == InitEntry(m, v, i, j)
  {
    hide Word, IsInitArray, SectionSize, InitEntry, NonNull, CountNonNull;
    ConstructorsCount(m, v, n);
    ConstructorsCount(m, v, n - 1);
    if i < n - 1 {
      ConstructorAt(m, v, n - 1, i, j);
    } else {
      CalledInTurn(m, v, i, SectionSize(m, v, i) / 4, j);
    }
  }

  /** Entry j of section i is one that so_excute_init_array calls. */
  predicate IsCalled(m: Mem, v: Image, i: nat, j: nat) {
    && i < SectionCount(m, v) && SectionName(m, v, i) == ".init_array"
    && j < SectionSize(m, v, i) / 4 && InitEntry(m, v, i, j) != 0
  }

  /** Its place among the calls. */
  function CallIndex(m: Mem, v: Image, i: nat, j: nat): nat {
    ConstructorsBefore(m, v, i) + CountNonNull(m, v, i, j)
  }

  /** What the code of the game at an address does to memory. */
  type Effect = (word, Mem) -> Mem

  /** Whatever else it does, the game leaves the bytes in keep alone. */
  ghost predicate Harmless(effect: Effect, keep: iset<int>) {
    forall w, m | |m| == SPACE :: |effect(w, m)| == SPACE && forall x | x in keep :: Byte(effect(w, m), x) == Byte(m, x)
  }

  /** The memory after calls to ws. */
  function RunAll(effect: Effect, m: Mem, ws: seq<word>): Mem {
    if ws == [] then m else effect(ws[|ws| - 1], RunAll(effect, m, ws[..|ws| - 1]))
  }

  lemma RunMore(effect: Effect, m: Mem, ws: seq<word>, w: word)
    ensures RunAll(effect, m, ws + [w]) == effect(w, RunAll(effect, m, ws))
  {
    assert (ws + [w])[..|ws|] == ws;
  }

  lemma {:induction false} RunKeeps(effect: Effect, keep: iset<int>, m: Mem, ws: seq<word>)
    requires Harmless(effect, keep) && |m| == SPACE
    ensures |RunAll(effect, m, ws)| == SPACE
    ensures forall x | x in keep :: Byte(RunAll(effect, m, ws), x) == Byte(m, x)
  {
    hide Byte;
    if ws != [] {
      RunKeeps(effect, keep, m, ws[..|ws| - 1]);
    }
  }

  /** Address x belongs to an .init_array section. */
  ghost predicate InInitArray(m: Mem, v: Image, x: int) {
    exists i :: 0 <= i < SectionCount(m, v) && IsInitArray(m, v, i)
                && SectionAddr(m, v, i) <= x < SectionAddr(m, v, i) + SectionSize(m, v, i)
  }

  /** What so_excute_init_array reads, it must find as it was. */
  ghost predicate KeepsArrays(m: Mem, v: Image, keep: iset<int>) {
    forall x | v.elf <= x < v.elf + v.fileSize || InInitArray(m, v, x) :: x in keep
  }

  /** Header and constructors of section i, after some constructors have run. */
  lemma CopyKept(effect: Effect, keep: iset<int>, m: Mem, v: Image, ws: seq<word>)
    requires Harmless(effect, keep) && KeepsArrays(m, v, keep) && |m| == SPACE
    ensures SameCopy(m, RunAll(effect, m, ws), v)
  {
    hide Byte, InInitArray;
    RunKeeps(effect, keep, m, ws);
  }

  lemma EntryKept(effect: Effect, keep: iset<int>, m: Mem, v: Image, ws: seq<word>, i: nat, j: nat)
    requires Harmless(effect, keep) && KeepsArrays(m, v, keep) && |m| == SPACE
    requires i < SectionCount(m, v) && IsInitArray(m, v, i) && j < SectionSize(m, v, i) / 4
    ensures Word(RunAll(effect, m, ws), SectionAddr(m, v, i) + 4 * j) == InitEntry(m, v, i, j)
  {
    hide Byte, Word, Half, IsInitArray, SectionCount, SectionAddr, SectionSize, RunAll, Harmless;
    var a, n := SectionAddr(m, v, i) + 4 * j, RunAll(effect, m, ws);
    RunKeeps(effect, keep, m, ws);
    forall x: int | a <= x < a + 4
      ensures Byte(n, x) == Byte(m, x)
    {
      assert InInitArray(m, v, x);
    }
    SameWord(n, m, a);
  }

  lemma AddZero(w: word)
    ensures Add(w, 0) == w
  {
  }

  lemma SetTwice(m: Mem, a: int, w: word, w': word)
    ensures SetWord(SetWord(m, a, w), a, w') == SetWord(m, a, w')
  {
    hide Byte;
    var n, n' := SetWord(SetWord(m, a, w), a, w'), SetWord(m, a, w');
    if 0 <= a && a + 4 <= |m| {
      assert n == n';
    }
  }

  lemma ApplyMore(m: Mem, base: word, rs: seq<Reloc>, r: Reloc)
    ensures ApplyAll(m, base, rs + [r]) == ApplyReloc(ApplyAll(m, base, rs), base, r)
  {
    assert (rs + [r])[..|rs|] == rs;
  }

  /** The entries before entry j of section i are among all entries, so applying them keeps the
      tables. */
  lemma PrefixKeepsTables(m: Mem, v: Image, fs: seq<DynLibFunction>, i: nat, j: nat)
    requires TargetsClear(m, v, AllRelocs(m, v, fs))
    requires i <= SectionCount(m, v)
    requires j == 0 || (i < SectionCount(m, v) && j <= EntryCount(m, v, i))
    ensures var rs := RelocsUpTo(m, v, fs, i) + SectionRelocs(m, v, fs, i, j);
            SameTables(m, ApplyAll(m, v.base, rs), v)
    ensures j == 0 ==> RelocsUpTo(m, v, fs, i) + SectionRelocs(m, v, fs, i, j) == RelocsUpTo(m, v, fs, i)
  {
    hide Entry, EntryCount, IsRelSection, Protected;
    var rs := RelocsUpTo(m, v, fs, i) + SectionRelocs(m, v, fs, i, j);
    UpToGrows(m, v, fs, i, SectionCount(m, v));
    forall r | r in rs
      ensures r in AllRelocs(m, v, fs)
    {
      if r in SectionRelocs(m, v, fs, i, j) {
        var k :| 0 <= k < j && SectionRelocs(m, v, fs, i, j)[k] == r;
        EntryIsReloc(m, v, fs, SectionCount(m, v), i, k);
      }
    }
    RelocationKeepsTables(m, v, rs);
  }

  lemma {:induction false} UpToGrows(m: Mem, v: Image, fs: seq<DynLibFunction>, i: nat, n: nat)
    requires i <= n
    ensures RelocsUpTo(m, v, fs, i) <= RelocsUpTo(m, v, fs, n)
    decreases n
  {
    if i < n {
      UpToGrows(m, v, fs, i, n - 1);
    }
  }

  /** Where a step of so_load goes on: the next header, or a label of its error ladder. */
  datatype Exit = Continue | ErrFreeSo | ErrFreeText

  /** The blocks that are live once the PT_LOAD headers ls are mapped. */
  function LiveBlocks(before: map<int, Block>, f: Mem, ls: seq<int>, text: int, data: int): map<int, Block> {
    if |ls| == 0 then before
    else
      var size := SegmentAt(f, ls[0]).blockSize;
      if |ls| == 1 then before[text := Block(LOAD_ADDRESS, size)]
      else
        before[text := Block(LOAD_ADDRESS, size)]
              [data := Block(LOAD_ADDRESS + size, SegmentAt(f, ls[1]).blockSize)]
  }

  /** Freeing what was allocated gives back the blocks of before, and nothing else. */
  lemma BlocksRestored(before: map<int, Block>, temp: int, live: map<int, Block>, f: Mem, ls: seq<int>,
                       text: int, data: int)
    requires temp in live && live == before[temp := live[temp]] && temp !in before && 0 !in live
    requires |ls| <= 2 && (|ls| >= 1 ==> text !in live && text > 0)
    requires |ls| == 2 ==> data !in live && data != text
    requires |ls| < 2 ==> data == 0
    requires |ls| == 0 ==> text == 0
    ensures var bs := LiveBlocks(live, f, ls, text, data);
            && (|ls| == 0 ==> bs - {temp} == before)
            && (|ls| <= 1 ==> bs - {text} - {temp} == before)
            && bs - {data} - {text} - {temp} == before
  {
    hide SegmentAt;
  }

  /** n loadable segments of f, in an order that so_load supports, with new blocks for them. */
  ghost predicate MappedSoFar(f: Mem, live: map<int, Block>, n: nat, text: int, data: int) {
    && n < |AllLoads(f)| && n <= 2
    && (1 <= n ==> SegmentAt(f, AllLoads(f)[0]).Executable() && 0 < text && text !in live)
    && (2 <= n ==> !SegmentAt(f, AllLoads(f)[1]).Executable() && 0 < data && data !in live && data != text)
  }

  /** Freeing the temporary block leaves the blocks of the mapped segments, and those from before. */
  lemma LiveWithout(before: map<int, Block>, temp: int, live: map<int, Block>, f: Mem, n: nat, text: int, data: int)
    requires temp in live && temp !in before && live == before[temp := live[temp]]
    requires MappedSoFar(f, live, n, text, data)
    ensures var ls := AllLoads(f)[..n];
            && LiveBlocks(live, f, ls, text, data) - {temp} == LiveBlocks(before, f, ls, text, data)
            && LiveBlocks(live, f, ls, text, data) - {text} - {temp} == LiveBlocks(before, f, ls, text, data) - {text}
            && (n == 0 ==> LiveBlocks(before, f, ls, text, data) == before)
            && temp in LiveBlocks(live, f, ls, text, data)
            && (1 <= n ==> text in LiveBlocks(live, f, ls, text, data) && text != temp)
  {
    hide SegmentAt, AllLoads;
  }

  class Loader {
    const os: Process
    var textBase: word
    var textSize: word
    var dataBase: word
    var dataSize: word
    var textBlock: int
    var dataBlock: int
    var tempBlock: int
    var elfHdr: word
    var progHdr: word
    var secHdr: word
    var shstrtab: word
    var syms: word
    var numSyms: nat
    var dynstrtab: word

    constructor (os: Process)
      ensures this.os == os && textBlock == 0 && dataBlock == 0
    {
      this.os := os;
      textBase, textSize, dataBase, dataSize := 0, 0, 0, 0;
      textBlock, dataBlock, tempBlock := 0, 0, 0;
      elfHdr, progHdr, secHdr, shstrtab, syms, dynstrtab := 0, 0, 0, 0, 0, 0;
      numSyms := 0;
    }

    function Memory(): Mem
      reads os.mem
    {
      os.mem[..]
    }

    /** The globals describe image v, which lies in live blocks. */
    ghost predicate Loaded(v: Image)
      reads this, os`blocks
    {
      && os.Valid()
      && v.base == textBase && v.syms == syms && v.numSyms == numSyms && v.dynstr == dynstrtab
      && os.Mapped(v.base, v.size)
    }

    /** The temporary copy of the file is live, and the header pointers point into it. */
    ghost predicate HeadersLive(v: Image)
      reads this, os`blocks
    {
      && v.elf == elfHdr && v.sections == secHdr && v.names == shstrtab
      && tempBlock in os.blocks
      && os.blocks[tempBlock].base <= v.elf
      && v.elf + v.fileSize <= os.blocks[tempBlock].base + os.blocks[tempBlock].size
    }

    /* Loading */

    /** The header pointers, and the temporary block they point into: the file copy is at t. */
    ghost predicate Pointers(f: Mem, t: int, live: map<int, Block>)
      reads `elfHdr, `progHdr, `secHdr, `tempBlock
    {
      && progHdr == t + HeaderTable(f) && elfHdr == t && secHdr == t + SectionTable(f)
      && tempBlock in live && live[tempBlock].base == t && |f| <= live[tempBlock].size
      && 0 !in live
    }

    ghost predicate TextMapped(text: Segment, live: map<int, Block>, dataAddr: int)
      reads `textBase, `textSize, `textBlock
    {
      && text.Executable() && text.vaddr == 0 && textSize == text.memSize
      && textBase == LOAD_ADDRESS && dataAddr == LOAD_ADDRESS + text.blockSize
      && textBlock !in live && 0 < textBlock
    }

    ghost predicate DataMapped(data: Segment, live: map<int, Block>)
      reads `textBlock, `dataBlock, `dataBase, `dataSize
    {
      && !data.Executable() && dataBlock !in live && 0 < dataBlock && dataBlock != textBlock
      && dataBase == Add(data.vaddr, LOAD_ADDRESS) && dataSize == data.memSize
    }

    ghost predicate BlocksMapped(f: Mem, live: map<int, Block>, ls: seq<int>, dataAddr: int)
      reads `textBase, `textSize, `textBlock, `dataBlock, `dataBase, `dataSize, os`blocks
    {
      && |ls| <= 2
      && os.blocks == LiveBlocks(live, f, ls, textBlock, dataBlock)
      && (|ls| == 0 ==> dataAddr == 0 && textBlock == 0)
      && (|ls| < 2 ==> dataBlock == 0)
      && (|ls| >= 1 ==> TextMapped(SegmentAt(f, ls[0]), live, dataAddr))
      && (|ls| == 2 ==> DataMapped(SegmentAt(f, ls[1]), live))
    }

    /** The state of so_load after it has mapped the PT_LOAD headers ls of file f: t is the address of
        the temporary copy, m the memory and live the blocks before the first mapping. */
    ghost predicate Progress(f: Mem, m: Mem, t: int, live: map<int, Block>, ls: seq<int>, dataAddr: int)
      reads `elfHdr, `progHdr, `secHdr, `tempBlock, os`blocks, os.mem
      reads `textBase, `textSize, `textBlock, `dataBlock, `dataBase, `dataSize
    {
      && os.Valid() && Pointers(f, t, live) && BlocksMapped(f, live, ls, dataAddr)
      && MappedMemory(Memory(), m, t, f, ls)
    }

    /** The end of one round of the PT_LOAD loop: relocate p_vaddr at p, clear the block, copy the
        file range. */
    method CopySegment(t: word, p: int, dest: word, block: word, size: nat, from: word, n: nat)
      requires os.Valid() && os.Mapped(t + p + 8, 4) && os.Mapped(block, size)
      requires os.Mapped(dest, n) && os.Mapped(t + from, n)
      modifies os.mem
      ensures Memory() == MapBytes(old(Memory()), t, p, dest, block, size, from, n)
    {
      hide Splice, SetWord, Byte, Word, WordBytes, Bytes, Zeros;
      os.StoreWord(t + p + 8, dest);
      os.Memcpy(block, Zeros(size));
      var segment := os.LoadBytes(t + from, n);
      os.Memcpy(dest, segment);
    }

    /** prog_hdr[i], before its p_vaddr is relocated, with the block size computed from it. */
    method ReadHeader(i: nat, t: word, ghost f: Mem, ghost ls: seq<int>) returns (s: Segment)
      requires os.Valid() && progHdr == t + HeaderTable(f) && os.Mapped(t, |f|)
      requires HeadersOk(f) && Holds(Memory(), t, Patched(f, ls)) && i < HeaderCount(f) && i !in ls
      ensures s == SegmentAt(f, i)
    {
      hide Word, Patched, Holds, AlignMem, HeadersOk, HeaderAt;
      HeaderInFile(f, i);
      HeldSegment(Memory(), t, f, ls, i);
      var p := progHdr + 32 * i;
      var kind := HeaderField(p, 0);
      var offset := HeaderField(p, 4);
      var vaddr := HeaderField(p, 8);
      var fileSize := HeaderField(p, 16);
      var memSize := HeaderField(p, 20);
      var flags := HeaderField(p, 24);
      var align := HeaderField(p, 28);
      s := Segment(kind, offset, vaddr, fileSize, memSize, flags, align, AlignMem(memSize, align));
    }

    method HeaderField(p: int, k: int) returns (w: word)
      requires os.Valid() && os.Mapped(p, 32) && 0 <= k <= 28
      ensures w == Word(Memory(), p + k)
    {
      w := os.LoadWord(p + k);
    }

    lemma HeaderInFile(f: Mem, i: int)
      requires HeadersOk(f) && 0 <= i < HeaderCount(f)
      ensures 0 <= HeaderAt(f, i) == HeaderTable(f) + 32 * i && HeaderAt(f, i) + 32 <= |f|
    {
    }

    lemma CopyMapped(f: Mem, t: int, live: map<int, Block>, ls: seq<int>, dataAddr: int)
      requires Pointers(f, t, live) && BlocksMapped(f, live, ls, dataAddr)
      ensures tempBlock in os.blocks && os.blocks[tempBlock] == live[tempBlock] && os.Mapped(t, |f|)
    {
      os.BlockMapped(tempBlock, t, |f|);
    }

    /** One round of the PT_LOAD loop of so_load. */
    method MapHeader(i: nat, t: word, dataAddr: word, ghost f: Mem, ghost m: Mem, ghost live: map<int, Block>)
      returns (exit: Exit, res: int, next: word)
      requires Progress(f, m, t, live, Loads(f, i), dataAddr) && SegmentsOk(f) && i < HeaderCount(f)
      modifies this, os`blocks, os`refusals, os.mem
      ensures os.Valid() && tempBlock == old(tempBlock)
      ensures elfHdr == old(elfHdr) && shstrtab == old(shstrtab)
      ensures exit == Continue ==> Progress(f, m, t, live, Loads(f, i + 1), next)
      ensures os.refusals == old(os.refusals) + if exit != Continue && res < 0 then 1 else 0
      ensures exit != Continue ==>
        && os.blocks == old(os.blocks) && Memory() == old(Memory()) && SegmentAt(f, i).kind == PT_LOAD
      ensures exit == ErrFreeSo && SegmentAt(f, i).Executable() ==> res < 0 && res == textBlock
      ensures exit == ErrFreeSo && !SegmentAt(f, i).Executable() ==> res == 0 && Loads(f, i) == []
      ensures exit == ErrFreeText ==>
        && res < 0 && res == dataBlock && !SegmentAt(f, i).Executable()
        && textBlock == old(textBlock) && Loads(f, i) != []
    {
      hide Word, Half, Splice, Byte, SegmentAt, HeaderAt, MapAll, Patched, Holds, HeadersOk, BlocksMapped, SegmentsOk;
      CopyMapped(f, t, live, Loads(f, i), dataAddr);
      var s := ReadHeader(i, t, f, Loads(f, i));
      if s.kind != PT_LOAD {
        return Continue, 0, dataAddr;
      }
      if s.Executable() {
        exit, res, next := MapText(i, s, t, dataAddr, f, m, live);
      } else {
        exit, res, next := MapData(i, s, t, dataAddr, f, m, live);
      }
    }

    /** The executable case.  A second executable segment finds its address taken. */
    method MapText(i: nat, s: Segment, t: word, dataAddr: word, ghost f: Mem, ghost m: Mem, ghost live: map<int, Block>)
      returns (exit: Exit, res: int, next: word)
      requires Progress(f, m, t, live, Loads(f, i), dataAddr) && SegmentsOk(f) && i < HeaderCount(f)
      requires s == SegmentAt(f, i) && s.kind == PT_LOAD && s.Executable()
      modifies this, os`blocks, os`refusals, os.mem
      ensures os.Valid() && tempBlock == old(tempBlock)
      ensures elfHdr == old(elfHdr) && shstrtab == old(shstrtab)
      ensures exit == Continue ==> Progress(f, m, t, live, Loads(f, i + 1), next)
      ensures os.refusals == old(os.refusals) + if exit != Continue && res < 0 then 1 else 0
      ensures exit != Continue ==>
        exit == ErrFreeSo && os.blocks == old(os.blocks) && Memory() == old(Memory()) && res < 0 && res == textBlock
    {
      hide Word, Half, Splice, Byte, SegmentAt, HeaderAt;
      hide MapAll, Patched, Holds, HeadersOk, LoadIndices, SegmentsOk, AllLoads;
      CopyMapped(f, t, live, Loads(f, i), dataAddr);
      if Loads(f, i) != [] {
        TextIsLive(f, live, Loads(f, i), dataAddr);
      }
      var block: word;
      res, block := os.AllocBlock(s.blockSize, Some(LOAD_ADDRESS));
      textBlock := res;
      if res < 0 {
        return ErrFreeSo, res, dataAddr;
      }
      assert Loads(f, i) == [];
      next := PlaceText(i, s, t, block, f, m, live);
      exit := Continue;
    }

    /** The text segment, once there is a block for it. */
    method PlaceText(i: nat, s: Segment, t: word, block: word, ghost f: Mem, ghost m: Mem, ghost live: map<int, Block>)
      returns (next: word)
      requires os.Valid() && Pointers(f, t, live) && MappedMemory(Memory(), m, t, f, []) && SegmentsOk(f)
      requires i < HeaderCount(f) && s == SegmentAt(f, i) && s.kind == PT_LOAD && s.Executable() && Loads(f, i) == []
      requires block == LOAD_ADDRESS && 0 < s.blockSize && block + s.blockSize < SPACE
      requires textBlock !in live && 0 < textBlock && dataBlock == 0
      requires os.blocks == live[textBlock := Block(block, s.blockSize)]
      modifies this`textBase, this`textSize, os.mem
      ensures Progress(f, m, t, live, Loads(f, i + 1), next)
    {
      hide Word, Half, Splice, Byte, SegmentAt, HeaderAt, MappedMemory;
      hide MapAll, Patched, Holds, HeadersOk, LoadIndices, SegmentsOk, AllLoads;
      FirstSegment(f, i);
      textBase := Add(s.vaddr, block);
      textSize := s.memSize;
      next := block + s.blockSize;
      CopyText(i, s, t, f, m, live);
    }

    method CopyText(i: nat, s: Segment, t: word, ghost f: Mem, ghost m: Mem, ghost live: map<int, Block>)
      requires os.Valid() && Pointers(f, t, live) && MappedMemory(Memory(), m, t, f, [])
      requires textBlock !in live && os.blocks == live[textBlock := Block(LOAD_ADDRESS, s.blockSize)]
      requires i < HeaderCount(f) && s == SegmentAt(f, i) && s.vaddr == 0 && textBase == LOAD_ADDRESS
      requires s.fileSize <= s.blockSize && s.offset + s.fileSize <= |f|
      modifies os.mem
      ensures MappedMemory(Memory(), m, t, f, [i])
    {
      hide Word, Half, Splice, Byte, SegmentAt, HeaderAt, MapAll, Patched, Holds, HeadersOk, LoadIndices, MapBytes;
      ghost var n0 := Memory();
      var p := 32 * i + progHdr - t;
      HeaderInFile(f, i);
      assert os.blocks[textBlock] == Block(LOAD_ADDRESS, s.blockSize) && os.blocks[tempBlock] == live[tempBlock];
      os.BlockMapped(textBlock, LOAD_ADDRESS, s.blockSize);
      os.BlockMapped(tempBlock, t, |f|);
      assert Clear(t, |f|, p, LOAD_ADDRESS, LOAD_ADDRESS, s.blockSize, s.offset, s.fileSize);
      CopySegment(t, p, textBase, LOAD_ADDRESS, s.blockSize, s.offset, s.fileSize);
      TextStep(n0, m, t, f, i, s);
    }

    lemma TextIsLive(f: Mem, live: map<int, Block>, ls: seq<int>, dataAddr: int)
      requires BlocksMapped(f, live, ls, dataAddr) && ls != []
      ensures textBlock in os.blocks && os.blocks[textBlock].base == LOAD_ADDRESS
    {
    }

    /** The other case.  With no executable segment before it, so_load gives up, with a result of 0. */
    method MapData(i: nat, s: Segment, t: word, dataAddr: word, ghost f: Mem, ghost m: Mem, ghost live: map<int, Block>)
      returns (exit: Exit, res: int, next: word)
      requires Progress(f, m, t, live, Loads(f, i), dataAddr) && SegmentsOk(f) && i < HeaderCount(f)
      requires s == SegmentAt(f, i) && s.kind == PT_LOAD && !s.Executable()
      modifies this, os`blocks, os`refusals, os.mem
      ensures os.Valid() && tempBlock == old(tempBlock)
      ensures elfHdr == old(elfHdr) && shstrtab == old(shstrtab)
      ensures exit == Continue ==> Progress(f, m, t, live, Loads(f, i + 1), next)
      ensures os.refusals == old(os.refusals) + if exit != Continue && res < 0 then 1 else 0
      ensures exit != Continue ==> os.blocks == old(os.blocks) && Memory() == old(Memory())
      ensures exit == ErrFreeSo ==> res == 0 && Loads(f, i) == []
      ensures exit == ErrFreeText ==> res < 0 && res == dataBlock && textBlock == old(textBlock) && Loads(f, i) != []
    {
      hide Word, Half, Splice, Byte, SegmentAt, HeaderAt;
      hide MapAll, Patched, Holds, HeadersOk, LoadIndices, SegmentsOk, AllLoads;
      hide BlocksMapped, LiveBlocks;
      NoDataAddress(f, live, Loads(f, i), dataAddr);
      if dataAddr == 0 {
        return ErrFreeSo, 0, dataAddr;
      }
      CopyMapped(f, t, live, Loads(f, i), dataAddr);
      DataIsLive(f, live, Loads(f, i), dataAddr);
      ghost var x := Loads(f, i)[0];
      var block: word;
      res, block := os.AllocBlock(s.blockSize, Some(dataAddr));
      dataBlock := res;
      if res < 0 {
        return ErrFreeText, res, dataAddr;
      }
      assert Loads(f, i) == [x];
      PlaceData(i, s, t, dataAddr, block, x, f, m, live);
      next := dataAddr;
      exit := Continue;
    }

    /** The data segment, once there is a block for it. */
    method PlaceData(i: nat, s: Segment, t: word, dataAddr: word, block: word,
                     ghost x: int, ghost f: Mem, ghost m: Mem, ghost live: map<int, Block>)
      requires os.Valid() && Pointers(f, t, live) && MappedMemory(Memory(), m, t, f, [x]) && SegmentsOk(f)
      requires i < HeaderCount(f) && s == SegmentAt(f, i) && s.kind == PT_LOAD && !s.Executable() && Loads(f, i) == [x]
      requires TextMapped(SegmentAt(f, x), live, dataAddr) && block == dataAddr
      requires dataBlock !in live && 0 < dataBlock && dataBlock != textBlock
      requires os.blocks == live[textBlock := Block(LOAD_ADDRESS, SegmentAt(f, x).blockSize)]
                                [dataBlock := Block(block, s.blockSize)]
      modifies this`dataBase, this`dataSize, os.mem
      ensures Progress(f, m, t, live, Loads(f, i + 1), dataAddr)
    {
      hide Word, Half, Splice, Byte, SegmentAt, HeaderAt, MappedMemory;
      hide MapAll, Patched, Holds, HeadersOk, LoadIndices, SegmentsOk, AllLoads, BlocksMapped;
      SecondSegment(f, x, i);
      dataBase := Add(s.vaddr, textBase);
      dataSize := s.memSize;
      CopyData(i, s, t, block, x, f, m, live);
      TwoBlocks(f, live, x, i, dataAddr);
    }

    method CopyData(i: nat, s: Segment, t: word, block: word,
                    ghost x: int, ghost f: Mem, ghost m: Mem, ghost live: map<int, Block>)
      requires os.Valid() && Pointers(f, t, live) && MappedMemory(Memory(), m, t, f, [x])
      requires i < HeaderCount(f) && s == SegmentAt(f, i) && dataBase == Add(s.vaddr, LOAD_ADDRESS)
      requires var text := SegmentAt(f, x);
               && block == LOAD_ADDRESS + text.blockSize && DataFits(text, s)
               && dataBlock !in live && textBlock !in live && dataBlock != textBlock
               && os.blocks == live[textBlock := Block(LOAD_ADDRESS, text.blockSize)]
                                    [dataBlock := Block(block, s.blockSize)]
      requires s.fileSize <= s.memSize && s.offset + s.fileSize <= |f|
      modifies os.mem
      ensures MappedMemory(Memory(), m, t, f, [x, i])
    {
      hide Word, Half, Splice, Byte, SegmentAt, HeaderAt, MapAll, Patched, Holds, HeadersOk, LoadIndices, MapBytes;
      ghost var n0 := Memory();
      var p := 32 * i + progHdr - t;
      HeaderInFile(f, i);
      assert os.blocks[dataBlock] == Block(block, s.blockSize) && os.blocks[tempBlock] == live[tempBlock];
      os.BlockMapped(dataBlock, block, s.blockSize);
      os.BlockMapped(tempBlock, t, |f|);
      assert dataBase == s.vaddr + LOAD_ADDRESS;
      assert Clear(t, |f|, p, s.vaddr + LOAD_ADDRESS, block, s.blockSize, s.offset, s.fileSize);
      CopySegment(t, p, dataBase, block, s.blockSize, s.offset, s.fileSize);
      DataStep(n0, m, t, f, x, i, SegmentAt(f, x), s);
    }

    lemma DataIsLive(f: Mem, live: map<int, Block>, ls: seq<int>, dataAddr: int)
      requires BlocksMapped(f, live, ls, dataAddr) && dataAddr != 0
      ensures 1 <= |ls| <= 2 && dataAddr == LOAD_ADDRESS + SegmentAt(f, ls[0]).blockSize
      ensures |ls| == 1 ==>
        && TextMapped(SegmentAt(f, ls[0]), live, dataAddr)
        && os.blocks == live[textBlock := Block(LOAD_ADDRESS, SegmentAt(f, ls[0]).blockSize)]
      ensures |ls| == 2 ==> dataBlock in os.blocks && os.blocks[dataBlock].base == dataAddr
    {
    }

    lemma NoDataAddress(f: Mem, live: map<int, Block>, ls: seq<int>, dataAddr: int)
      requires BlocksMapped(f, live, ls, dataAddr)
      ensures dataAddr == 0 <==> ls == []
    {
    }

    lemma TwoBlocks(f: Mem, live: map<int, Block>, x: int, i: int, dataAddr: int)
      requires TextMapped(SegmentAt(f, x), live, dataAddr) && DataMapped(SegmentAt(f, i), live)
      requires os.blocks == live[textBlock := Block(LOAD_ADDRESS, SegmentAt(f, x).blockSize)]
                                [dataBlock := Block(dataAddr, SegmentAt(f, i).blockSize)]
      ensures BlocksMapped(f, live, [x, i], dataAddr)
    {
      hide SegmentAt;
    }

    /** The last loop of so_load: later sections of the same name overwrite earlier ones. */
    method FindTables(t: word, ghost f: Mem, ghost ls: seq<int>)
      requires os.Valid() && os.Mapped(t, |f|) && elfHdr == t && secHdr == t + SectionTable(f)
      requires HeadersOk(f) && LoadIndices(f, ls) && Holds(Memory(), t, Patched(f, ls))
      requires shstrtab == Add(t, NameTable(f))
      modifies this`syms, this`numSyms, this`dynstrtab
      ensures syms == TableAddress(f, textBase, ".dynsym", SectionsIn(f))
      ensures dynstrtab == TableAddress(f, textBase, ".dynstr", SectionsIn(f))
      ensures numSyms == SymbolCount(f, SectionsIn(f)) || LastNamed(f, ".dynsym", SectionsIn(f)) < 0
    {
      hide Word, Half, CString, Holds, Patched, HeaderTable, Add, TableAddress, LastNamed, HeadersOk, NameOf;
      syms := 0;
      dynstrtab := 0;
      var i := 0;
      TableStep(f, textBase, ".dynsym", i);
      TableStep(f, textBase, ".dynstr", i);
      var count := SectionCountOf(t, f, ls);
      while i < count
        invariant 0 <= i <= count == SectionsIn(f)
        invariant syms == TableAddress(f, textBase, ".dynsym", i)
        invariant dynstrtab == TableAddress(f, textBase, ".dynstr", i)
        invariant numSyms == SymbolCount(f, i) || LastNamed(f, ".dynsym", i) < 0
      {
        TableStep(f, textBase, ".dynsym", i);
        TableStep(f, textBase, ".dynstr", i);
        var name, addr, size := ReadSectionHeader(i, t, f, ls);
        NoteTable(name, addr, size);
        i := i + 1;
      }
    }

    /** The body of that loop. */
    method NoteTable(name: string, addr: word, size: word)
      modifies this`syms, this`numSyms, this`dynstrtab
      ensures syms == if name == ".dynsym" then Add(textBase, addr) else old(syms)
      ensures numSyms == if name == ".dynsym" then size / 16 else old(numSyms)
      ensures dynstrtab == if name == ".dynstr" then Add(textBase, addr) else old(dynstrtab)
    {
      assert ".dynsym"[5] != ".dynstr"[5];
      if name == ".dynsym" {
        syms := Add(textBase, addr);
        numSyms := size / 16;
      } else if name == ".dynstr" {
        dynstrtab := Add(textBase, addr);
      }
    }

    method SectionCountOf(t: word, ghost f: Mem, ghost ls: seq<int>) returns (n: nat)
      requires os.Valid() && os.Mapped(t, |f|) && elfHdr == t
      requires HeadersOk(f) && LoadIndices(f, ls) && Holds(Memory(), t, Patched(f, ls))
      ensures n == SectionsIn(f)
    {
      hide Half, Word, Holds, HeadersOk;
      FileHeaderOk(f);
      HeldOutside(Memory(), t, f, ls, 48);
      n := os.LoadHalf(elfHdr + 48);
    }

    /** sec_hdr[i] and its name, read from the temporary copy. */
    method ReadSectionHeader(i: nat, t: word, ghost f: Mem, ghost ls: seq<int>)
      returns (name: string, addr: word, size: word)
      requires os.Valid() && os.Mapped(t, |f|) && secHdr == t + SectionTable(f)
      requires HeadersOk(f) && LoadIndices(f, ls) && Holds(Memory(), t, Patched(f, ls))
      requires shstrtab == Add(t, NameTable(f)) && i < SectionsIn(f)
      ensures name == NameOf(f, i)
      ensures addr == Word(f, SectionTable(f) + 40 * i + 12) && size == Word(f, SectionTable(f) + 40 * i + 20)
    {
      hide Word, Half, CString, Holds, Patched;
      assert NameOk(f, i);
      var o := SectionTable(f) + 40 * i;
      HeldOutside(Memory(), t, f, ls, o);
      HeldOutside(Memory(), t, f, ls, o + 12);
      HeldOutside(Memory(), t, f, ls, o + 20);
      var nameOffset := os.LoadWord(secHdr + 40 * i);
      var a := NameTable(f) + nameOffset;
      HeldName(Memory(), t, f, ls, a);
      MemoryEnds(t, |f|);
      assert shstrtab == t + NameTable(f);
      name := os.LoadString(shstrtab + nameOffset);
      addr := os.LoadWord(secHdr + 40 * i + 12);
      size := os.LoadWord(secHdr + 40 * i + 20);
    }

    lemma MemoryEnds(lo: int, n: int)
      requires os.Valid() && os.Mapped(lo, n) && 0 < n
      ensures 0 <= lo && lo + n < SPACE
    {
      os.MappedInSpace(lo, n);
    }

    /** The header pointers. */
    method SetPointers(t: word, ghost f: Mem)
      requires os.Valid() && os.Mapped(t, |f|) && HeadersOk(f) && Holds(Memory(), t, f)
      modifies this`elfHdr, this`progHdr, this`secHdr, this`shstrtab
      ensures elfHdr == t && progHdr == t + HeaderTable(f) && secHdr == t + SectionTable(f)
      ensures shstrtab == Add(t, NameTable(f))
    {
      hide Word, Half, Add, Holds, HeadersOk, HeaderTable, SectionTable, NameSection, Patched;
      FileHeaderOk(f);
      os.MappedInSpace(t, |f|);
      PatchedNone(f);
      elfHdr := t;
      var phoff := ReadField(t, 28, f, []);
      var shoff := ReadField(t, 32, f, []);
      HeldOutside(Memory(), t, f, [], 48);
      var index := os.LoadHalf(t + 50);
      FieldNames(f);
      progHdr := t + phoff;
      secHdr := t + shoff;
      var offset := ReadField(t, shoff + 40 * index + 16, f, []);
      shstrtab := Add(t, offset);
    }

    lemma FieldNames(f: Mem)
      ensures HeaderTable(f) == Word(f, 28) && SectionTable(f) == Word(f, 32)
      ensures NameSection(f) == Word(f, 32) + 40 * Half(f, 50)
    {
      hide Word, Half;
    }

    lemma PatchedNone(f: Mem)
      ensures Patched(f, []) == f
    {
    }

    /** A word of the file copy, outside the program headers. */
    method ReadField(t: word, o: nat, ghost f: Mem, ghost ls: seq<int>) returns (w: word)
      requires os.Valid() && os.Mapped(t, |f|) && LoadIndices(f, ls) && Holds(Memory(), t, Patched(f, ls))
      requires o + 4 <= |f| && (o + 4 <= HeaderTable(f) || HeaderTable(f) + 32 * HeaderCount(f) <= o)
      ensures w == Word(f, o)
    {
      hide Word, Half, Holds, Patched;
      HeldOutside(Memory(), t, f, ls, o);
      w := os.LoadWord(t + o);
    }

    /** Where the PT_LOAD loop gave up: n segments were mapped, into the blocks text and data, and the next
        one was not. */
    ghost predicate Stopped(f: Mem, live: map<int, Block>, exit: Exit, res: int, n: nat, text: int, data: int)
      reads `textBlock, `dataBlock, os`blocks
    {
      && MappedSoFar(f, live, n, text, data) && os.blocks == LiveBlocks(live, f, AllLoads(f)[..n], text, data)
      && var executable := SegmentAt(f, AllLoads(f)[n]).Executable();
         match exit
         case Continue => false
         case ErrFreeSo =>
           if executable then res < 0 && textBlock == res else n == 0 && res == 0
         case ErrFreeText =>
           !executable && 0 < n && res < 0 && dataBlock == res && textBlock == text
    }

    /** The PT_LOAD loop of so_load. */
    method MapHeaders(t: word, ghost f: Mem, ghost m: Mem, ghost live: map<int, Block>)
      returns (exit: Exit, res: int, dataAddr: word, ghost n: nat, ghost text: int, ghost data: int)
      requires Progress(f, m, t, live, [], 0) && SegmentsOk(f)
      modifies this, os`blocks, os`refusals, os.mem
      ensures os.Valid() && tempBlock == old(tempBlock) && shstrtab == old(shstrtab)
      ensures os.refusals == old(os.refusals) + if exit != Continue && res < 0 then 1 else 0
      ensures exit == Continue ==> Progress(f, m, t, live, AllLoads(f), dataAddr)
      ensures exit != Continue ==> Stopped(f, live, exit, res, n, text, data)
    {
      hide Word, Half, Splice, Byte, SegmentAt, HeaderAt, MapAll, Patched, Holds, HeadersOk, SegmentsOk;
      hide BlocksMapped, LiveBlocks;
      dataAddr := 0;
      var i := 0;
      CopyMapped(f, t, live, [], 0);
      var count := HeaderCountOf(t, f, []);
      exit, res, n, text, data := Continue, 0, 0, 0, 0;
      while i < count
        invariant 0 <= i <= count == HeaderCount(f)
        invariant Progress(f, m, t, live, Loads(f, i), dataAddr)
        invariant tempBlock == old(tempBlock) && shstrtab == old(shstrtab) && exit == Continue
        invariant os.refusals == old(os.refusals)
      {
        LoadOrder(f, live, Loads(f, i), dataAddr);
        n, text, data := |Loads(f, i)|, textBlock, dataBlock;
        exit, res, dataAddr := MapHeader(i, t, dataAddr, f, m, live);
        if exit != Continue {
          NextLoad(f, i);
          assert AllLoads(f)[..n] == Loads(f, i);
          return;
        }
        i := i + 1;
      }
    }

    /** so_load once the ELF magic has been seen; m and before are the memory and the blocks before
        the file was read to t. */
    method LoadImage(t: word, ghost f: Mem, ghost m: Mem, ghost before: map<int, Block>) returns (res: int)
      requires os.Valid() && FileOk(f) && HasMagic(f) && textBlock == 0 && dataBlock == 0 && |m| == SPACE
      requires Memory() == Splice(m, t, f) && tempBlock !in before && 0 !in before && tempBlock in os.blocks
      requires os.blocks == before[tempBlock := os.blocks[tempBlock]]
      requires os.blocks[tempBlock].base == t && |f| <= os.blocks[tempBlock].size
      modifies this, os`blocks, os`frees, os`refusals, os.mem
      ensures os.Valid() && tempBlock == old(tempBlock)
      ensures FirstIsData(f) ==>
        res == 0 && os.blocks == before && os.frees == old(os.frees) + [tempBlock] && os.refusals == old(os.refusals)
      ensures !FirstIsData(f) && !Supported(f) ==> res < 0
      ensures !FirstIsData(f) && res < 0 ==> MappingFailed(before, old(os.frees), old(os.refusals), f, res)
      ensures Supported(f) && res >= 0 ==>
        && res == 0 && os.frees == old(os.frees) && os.refusals == old(os.refusals)
        && elfHdr == t && Succeeded(f, m, old(os.blocks))
    {
      hide Word, Half, Splice, Byte, SegmentAt, HeaderAt, MapAll, Patched, Holds, HeadersOk, SegmentsOk;
      hide BlocksMapped, LiveBlocks, AllLoads, MappedMemory, Add, Refused, Incomplete, Stopped;
      ghost var live := os.blocks;
      PrepareProgress(t, f, m, live);
      SetPointers(t, f);
      StartProgress(f, m, t, live);
      var exit, r, dataAddr, n, text, data := MapHeaders(t, f, m, live);
      if exit == Continue {
        res := FinishLoad(t, f, m, before, live, dataAddr);
      } else {
        res := GiveUp(exit, r, f, before, live, n, text, data);
      }
    }

    /** The labels err_free_text and err_free_so. */
    method GiveUp(exit: Exit, r: int, ghost f: Mem, ghost before: map<int, Block>, ghost live: map<int, Block>,
                  ghost n: nat, ghost text: int, ghost data: int)
      returns (res: int)
      requires os.Valid() && Stopped(f, live, exit, r, n, text, data)
      requires tempBlock !in before && tempBlock in live && live == before[tempBlock := live[tempBlock]]
      modifies os`blocks, os`frees, os.mem
      ensures os.Valid()
      ensures FirstIsData(f) ==> res == 0 && os.blocks == before && os.frees == old(os.frees) + [tempBlock]
      ensures !FirstIsData(f) ==> res < 0 && Refused(before, old(os.frees), f, res, n, text, data)
      ensures res == r && (res < 0 ==> !FirstIsData(f))
    {
      hide SegmentAt, AllLoads, LiveBlocks;
      LiveWithout(before, tempBlock, live, f, n, text, data);
      if exit == ErrFreeText {
        os.FreeBlock(textBlock);
      }
      os.FreeBlock(tempBlock);
      res := r;
    }

    /** so_load after the PT_LOAD loop. */
    method FinishLoad(t: word, ghost f: Mem, ghost m: Mem, ghost before: map<int, Block>, ghost live: map<int, Block>,
                      ghost dataAddr: int)
      returns (res: int)
      requires Progress(f, m, t, live, AllLoads(f), dataAddr) && shstrtab == Add(t, NameTable(f))
      requires tempBlock !in before && live == before[tempBlock := live[tempBlock]]
      modifies this`syms, this`numSyms, this`dynstrtab, os`blocks, os`frees, os.mem
      ensures os.Valid()
      ensures Supported(f) && !FirstIsData(f)
      ensures res < 0 ==> Incomplete(before, old(os.frees), f, res)
      ensures res >= 0 ==>
        res == 0 && os.frees == old(os.frees) && TablesFound(f) && Progress(f, m, t, live, AllLoads(f), dataAddr)
    {
      hide Word, Half, Splice, Byte, SegmentAt, HeaderAt, MapAll, Patched, Holds, HeadersOk;
      hide BlocksMapped, LiveBlocks, AllLoads, MappedMemory, Add;
      CopyMapped(f, t, live, AllLoads(f), dataAddr);
      MemoryHolds(f, m, t, AllLoads(f));
      LoadOrder(f, live, AllLoads(f), dataAddr);
      BlocksRestored(before, tempBlock, live, f, AllLoads(f), textBlock, dataBlock);
      FindTables(t, f, AllLoads(f));
      NonEmptyBase(f, live, AllLoads(f), dataAddr);
      if syms == 0 || dynstrtab == 0 {
        AllocatedOrZero(f, live, AllLoads(f), dataAddr);
        FreeAll();
        return -2;
      }
      res := 0;
    }

    /** The labels from err_free_data on.  A block that was not allocated has uid 0. */
    method FreeAll()
      requires os.Valid() && tempBlock in os.blocks && textBlock != tempBlock && dataBlock != tempBlock
      requires (textBlock in os.blocks || textBlock == 0) && (dataBlock in os.blocks || dataBlock == 0)
      requires textBlock == dataBlock ==> textBlock == 0
      modifies os`blocks, os`frees, os.mem
      ensures os.Valid() && os.blocks == old(os.blocks) - {dataBlock} - {textBlock} - {tempBlock}
      ensures os.frees == old(os.frees) + [dataBlock, textBlock, tempBlock]
    {
      os.FreeBlock(dataBlock);
      os.FreeBlock(textBlock);
      os.FreeBlock(tempBlock);
    }

    lemma AllocatedOrZero(f: Mem, live: map<int, Block>, ls: seq<int>, dataAddr: int)
      requires os.Valid() && BlocksMapped(f, live, ls, dataAddr) && tempBlock in live && 0 !in live
      ensures tempBlock in os.blocks && textBlock != tempBlock && dataBlock != tempBlock
      ensures (textBlock in os.blocks || textBlock == 0) && (dataBlock in os.blocks || dataBlock == 0)
      ensures textBlock == dataBlock ==> textBlock == 0
    {
      hide SegmentAt;
    }

    lemma NonEmptyBase(f: Mem, live: map<int, Block>, ls: seq<int>, dataAddr: int)
      requires BlocksMapped(f, live, ls, dataAddr)
      ensures ls != [] ==> textBase == LOAD_ADDRESS
    {
    }

    lemma PrepareProgress(t: word, f: Mem, m: Mem, live: map<int, Block>)
      requires os.Valid() && |m| == SPACE && Memory() == Splice(m, t, f) && live == os.blocks && HeadersOk(f)
      requires tempBlock in live && live[tempBlock].base == t && |f| <= live[tempBlock].size
      ensures os.Mapped(t, |f|) && Holds(Memory(), t, f)
    {
      hide Word, Splice, Holds;
      os.BlockMapped(tempBlock, t, |f|);
      os.MappedInSpace(t, |f|);
      FileHeld(m, t, f);
    }

    lemma MemoryHolds(f: Mem, m: Mem, t: int, ls: seq<int>)
      requires MappedMemory(Memory(), m, t, f, ls)
      ensures HeadersOk(f) && LoadIndices(f, ls) && Holds(Memory(), t, Patched(f, ls))
    {
      hide Word, Holds, MapAll, Patched, HeadersOk;
    }

    method HeaderCountOf(t: word, ghost f: Mem, ghost ls: seq<int>) returns (n: nat)
      requires os.Valid() && os.Mapped(t, |f|) && elfHdr == t
      requires HeadersOk(f) && LoadIndices(f, ls) && Holds(Memory(), t, Patched(f, ls))
      ensures n == HeaderCount(f)
    {
      hide Half, Word, Holds, HeadersOk;
      FileHeaderOk(f);
      HeldOutside(Memory(), t, f, ls, 44);
      n := os.LoadHalf(elfHdr + 44);
    }

    /** Only one executable segment followed by one other can have been mapped. */
    lemma LoadOrder(f: Mem, live: map<int, Block>, ls: seq<int>, dataAddr: int)
      requires BlocksMapped(f, live, ls, dataAddr)
      ensures |ls| <= 2
      ensures |ls| >= 1 ==> SegmentAt(f, ls[0]).Executable() && textBlock !in live && textBlock > 0
      ensures |ls| == 2 ==>
        !SegmentAt(f, ls[1]).Executable() && dataBlock !in live && dataBlock > 0 && dataBlock != textBlock
      ensures |ls| < 2 ==> dataBlock == 0
      ensures |ls| == 0 ==> textBlock == 0
      ensures os.blocks == LiveBlocks(live, f, ls, textBlock, dataBlock)
    {
    }

    lemma StartProgress(f: Mem, m: Mem, t: int, live: map<int, Block>)
      requires os.Valid() && HeadersOk(f) && Pointers(f, t, live) && os.blocks == live
      requires Memory() == Splice(m, t, f) && Holds(Memory(), t, f) && textBlock == 0 && dataBlock == 0
      ensures Progress(f, m, t, live, [], 0)
    {
      hide Word, Holds, Splice;
    }

    predicate TablesFound(f: Mem)
      reads this
    {
      && syms == TableAddress(f, textBase, ".dynsym", SectionsIn(f)) && syms != 0
      && dynstrtab == TableAddress(f, textBase, ".dynstr", SectionsIn(f)) && dynstrtab != 0
      && numSyms == SymbolCount(f, SectionsIn(f))
    }

    /** The kernel refused the block for loadable segment n.  At err_free_text the text block is freed, at
        err_free_so only the temporary copy: a refused executable segment leaves behind what was mapped
        before it, a refused third segment the data block. */
    ghost predicate Refused(before: map<int, Block>, frees: seq<int>, f: Mem, res: int, n: nat, text: int, data: int)
      reads this, os`blocks, os`frees
    {
      && MappedSoFar(f, before, n, text, data) && res < 0
      && var left := LiveBlocks(before, f, AllLoads(f)[..n], text, data);
         if SegmentAt(f, AllLoads(f)[n]).Executable() then
           res == textBlock && os.blocks == left && os.frees == frees + [tempBlock]
         else
           0 < n && res == dataBlock && os.blocks == left - {text} && os.frees == frees + [text, tempBlock]
    }

    /** A table is missing: everything is freed, each block once. */
    ghost predicate Incomplete(before: map<int, Block>, frees: seq<int>, f: Mem, res: int)
      reads this, os`blocks, os`frees
    {
      && res == -2 && !HasTables(f, textBase) && (AllLoads(f) != [] ==> textBase == LOAD_ADDRESS)
      && os.blocks == before && os.frees == frees + [dataBlock, textBlock, tempBlock]
    }

    /** The two ways in which so_load fails on an ELF file whose first loadable segment is executable. */
    ghost predicate MappingFailed(before: map<int, Block>, frees: seq<int>, refusals: nat, f: Mem, res: int)
      reads this, os`blocks, os`frees, os`refusals
    {
      || (os.refusals == refusals + 1 && exists n, text, data :: Refused(before, frees, f, res, n, text, data))
      || (os.refusals == refusals && Supported(f) && Incomplete(before, frees, f, res))
    }

    /** A refused block leaves nothing behind exactly when it is the first one, or the one for a data segment
        right after the text segment. */
    lemma LeftBehind(before: map<int, Block>, frees: seq<int>, f: Mem, res: int, n: nat, text: int, data: int)
      requires Refused(before, frees, f, res, n, text, data)
      ensures os.blocks == before <==> n == 0 || (n == 1 && !SegmentAt(f, AllLoads(f)[1]).Executable())
    {
      hide SegmentAt, AllLoads;
      if n == 2 {
        assert data in os.blocks;
      } else if n == 1 && SegmentAt(f, AllLoads(f)[1]).Executable() {
        assert text in os.blocks;
      }
    }

    /** When the order of segments is supported, failure gives every block back. */
    lemma NothingLeft(before: map<int, Block>, frees: seq<int>, refusals: nat, f: Mem, res: int)
      requires MappingFailed(before, frees, refusals, f, res) && Supported(f)
      ensures os.blocks == before
    {
      hide SegmentAt, AllLoads;
      if n, text, data :| Refused(before, frees, f, res, n, text, data) {
        assert n <= 1;
      }
    }

    /** All the ways in which so_load fails. */
    ghost predicate LoadFailed(before: map<int, Block>, frees: seq<int>, refusals: nat, fd: int, f: Mem, res: int)
      reads this, os`blocks, os`frees, os`refusals
    {
      if fd < 0 then
        // the file cannot be opened
        res == fd && os.blocks == before && os.frees == frees && os.refusals == refusals
      else if tempBlock < 0 then
        // no memory for the temporary copy
        res == tempBlock && os.blocks == before && os.frees == frees && os.refusals == refusals + 1
      else
        CopyFailed(before, frees, refusals, f, res)
    }

    /** Those that come after the file has been read. */
    ghost predicate CopyFailed(before: map<int, Block>, frees: seq<int>, refusals: nat, f: Mem, res: int)
      reads this, os`blocks, os`frees, os`refusals
    {
      if !HasMagic(f) then
        // not an ELF file
        res == -1 && os.blocks == before && os.frees == frees + [tempBlock] && os.refusals == refusals
      else
        !FirstIsData(f) && MappingFailed(before, frees, refusals, f, res)
    }

    /** What so_load leaves when it succeeds; m and live are the memory before the file was read, and the
        blocks once there is one for its copy. */
    ghost predicate Succeeded(f: Mem, m: Mem, live: map<int, Block>)
      reads this, os`blocks, os.mem
    {
      && TablesFound(f) && shstrtab == Add(elfHdr, NameTable(f))
      && exists dataAddr :: Progress(f, m, elfHdr, live, AllLoads(f), dataAddr)
    }

    /** so_load.  fd is what sceIoOpen returned and file what the descriptor reads. */
    method Load(fd: int, file: Mem) returns (res: int)
      requires os.Valid() && FileOk(file) && fd !in os.openFiles && textBlock == 0 && dataBlock == 0
      modifies this, os`blocks, os`frees, os`refusals, os`openFiles, os.mem
      ensures os.Valid()
      // failure; without memory for the temporary copy the descriptor stays open
      ensures res < 0 ==> LoadFailed(old(os.blocks), old(os.frees), old(os.refusals), fd, file, res)
      ensures os.openFiles == old(os.openFiles) + if 0 <= fd && tempBlock < 0 then {fd} else {}
      ensures 0 <= fd && 0 <= tempBlock ==> tempBlock !in old(os.blocks)
      // no block is left behind when the order of segments is supported
      ensures res < 0 && (HasMagic(file) ==> Supported(file)) ==> os.blocks == old(os.blocks)
      // the first loadable segment is not executable: reported as success, with nothing loaded
      ensures 0 <= fd && 0 <= tempBlock && HasMagic(file) && FirstIsData(file) ==>
        && res == 0 && os.blocks == old(os.blocks)
        && os.frees == old(os.frees) + [tempBlock] && os.refusals == old(os.refusals)
      // any other order than one executable segment and one more never loads
      ensures 0 <= fd && HasMagic(file) && !FirstIsData(file) && !Supported(file) ==> res < 0
      // success: exactly when the kernel grants every block and both tables exist
      ensures HasMagic(file) && Supported(file) ==>
        (res >= 0 <==> 0 <= fd && os.refusals == old(os.refusals) && HasTables(file, textBase))
      ensures res >= 0 ==> 0 <= fd && 0 <= tempBlock && HasMagic(file)
      ensures res >= 0 && Supported(file) ==>
        && res == 0 && os.frees == old(os.frees)
        && var live := old(os.blocks)[tempBlock := Block(elfHdr, AlignMem(|file|, 0x1000))];
           Succeeded(file, old(Memory()), live)
    {
      hide Word, Half, Splice, Byte, SegmentAt, MapAll, HeadersOk, SegmentsOk, AlignMem, AllLoads;
      hide Supported, FirstIsData, HasMagic, MappingFailed, Succeeded, HasTables;
      tempBlock := -1;
      if fd < 0 {
        return fd;
      }
      os.openFiles := os.openFiles + {fd};
      var base: word;
      FilePages(|file|);
      tempBlock, base := os.AllocBlock(AlignMem(|file|, 0x1000), None);
      if tempBlock < 0 {
        return tempBlock;
      }
      os.BlockMapped(tempBlock, base, |file|);
      os.Memcpy(base, file);
      os.openFiles := os.openFiles - {fd};
      res := LoadCopy(base, file, old(Memory()), old(os.blocks));
    }

    /** so_load once the file has been read to t; m and before are the memory and the blocks before that. */
    method LoadCopy(t: word, ghost f: Mem, ghost m: Mem, ghost before: map<int, Block>) returns (res: int)
      requires os.Valid() && FileOk(f) && textBlock == 0 && dataBlock == 0 && |m| == SPACE
      requires Memory() == Splice(m, t, f) && tempBlock !in before && 0 !in before && tempBlock in os.blocks
      requires os.blocks == before[tempBlock := os.blocks[tempBlock]]
      requires os.blocks[tempBlock].base == t && |f| <= os.blocks[tempBlock].size
      modifies this, os`blocks, os`frees, os`refusals, os.mem
      ensures os.Valid() && tempBlock == old(tempBlock)
      ensures res < 0 ==> CopyFailed(before, old(os.frees), old(os.refusals), f, res)
      ensures res < 0 && (HasMagic(f) ==> Supported(f)) ==> os.blocks == before
      ensures HasMagic(f) && FirstIsData(f) ==>
        res == 0 && os.blocks == before && os.frees == old(os.frees) + [tempBlock] && os.refusals == old(os.refusals)
      ensures HasMagic(f) && !FirstIsData(f) && !Supported(f) ==> res < 0
      ensures HasMagic(f) && Supported(f) ==> (res >= 0 <==> os.refusals == old(os.refusals) && HasTables(f, textBase))
      ensures res >= 0 ==> HasMagic(f)
      ensures res >= 0 && Supported(f) ==>
        res == 0 && os.frees == old(os.frees) && elfHdr == t && Succeeded(f, m, old(os.blocks))
    {
      hide Word, Half, Splice, Byte, SegmentAt, MapAll, HeadersOk, SegmentsOk, AllLoads;
      hide Supported, FirstIsData, HasMagic, MappingFailed, Succeeded, HasTables;
      os.BlockMapped(tempBlock, t, |f|);
      var magic := IsElf(t, f, m);
      if !magic {
        os.FreeBlock(tempBlock);
        return -1;
      }
      res := LoadImage(t, f, m, before);
      LoadOutcome(before, old(os.frees), old(os.refusals), f, res);
      if res >= 0 && Supported(f) {
        SuccessHasTables(f, m, old(os.blocks));
      }
    }

    lemma SuccessHasTables(f: Mem, m: Mem, live: map<int, Block>)
      requires Succeeded(f, m, live)
      ensures HasTables(f, textBase)
    {
      hide Progress, TableAddress;
    }

    /** Failures of so_load, once more: when the order of segments is supported, either the kernel has
        refused a block or a table is missing. */
    lemma LoadOutcome(before: map<int, Block>, frees: seq<int>, refusals: nat, f: Mem, res: int)
      ensures Supported(f) && MappingFailed(before, frees, refusals, f, res) ==>
        os.blocks == before && !(os.refusals == refusals && HasTables(f, textBase))
      ensures Supported(f) ==> !FirstIsData(f)
    {
      hide SegmentAt, AllLoads, Refused, TableAddress;
      if Supported(f) && MappingFailed(before, frees, refusals, f, res) {
        NothingLeft(before, frees, refusals, f, res);
      }
    }

    /** The result of each failure, and what has been freed. */
    lemma FailureCodes(before: map<int, Block>, frees: seq<int>, refusals: nat, fd: int, f: Mem, res: int)
      requires LoadFailed(before, frees, refusals, fd, f, res)
      ensures fd < 0 ==> res == fd && os.frees == frees && os.blocks == before
      ensures 0 <= fd && tempBlock < 0 ==> res == tempBlock && os.frees == frees && os.blocks == before
      ensures 0 <= fd && 0 <= tempBlock && !HasMagic(f) ==>
        res == -1 && os.frees == frees + [tempBlock] && os.blocks == before
      ensures 0 <= fd && 0 <= tempBlock && HasMagic(f) && os.refusals == refusals ==>
        res == -2 && os.frees == frees + [dataBlock, textBlock, tempBlock] && os.blocks == before
      ensures 0 <= fd && 0 <= tempBlock && os.refusals != refusals ==>
        || (res == textBlock && os.frees == frees + [tempBlock])
        || (res == dataBlock && exists text :: os.frees == frees + [text, tempBlock] && 0 < text && text !in before)
    {
      hide SegmentAt, AllLoads, HasMagic, Supported, HasTables, LiveBlocks;
    }

    /** A failure that is not the kernel's, of an ELF file that could be opened, is a missing table or an
        order of segments that is not supported. */
    lemma FailureCause(before: map<int, Block>, frees: seq<int>, refusals: nat, fd: int, f: Mem, res: int)
      requires LoadFailed(before, frees, refusals, fd, f, res) && (HasMagic(f) && Supported(f) ==> AllLoads(f) != [])
      ensures 0 <= fd && HasMagic(f) && os.refusals == refusals ==>
        !FirstIsData(f) && !(Supported(f) && HasTables(f, LOAD_ADDRESS))
    {
      hide SegmentAt, AllLoads, Refused, HasTables, HasMagic, Supported, FirstIsData;
    }

    lemma FilePages(n: nat)
      requires n <= SPACE - 0x1000
      ensures n <= AlignMem(n, 0x1000)
    {
      hide AlignMem;
      assert Pow2(12) == 0x1000;
      AlignIsLeastMultiple(n, 12);
    }

    /** memcmp(so_data, ELFMAG, SELFMAG) == 0 */
    method IsElf(t: word, ghost f: Mem, ghost m: Mem) returns (b: bool)
      requires os.Valid() && 4 <= |f| && os.Mapped(t, |f|) && |m| == SPACE && Memory() == Splice(m, t, f)
      ensures b == HasMagic(f)
    {
      hide Word, Splice;
      os.MappedInSpace(t, |f|);
      FileHeld(m, t, f);
      var bytes := os.LoadBytes(t, 4);
      ghost var n := Memory();
      assert Byte(n, t) == Byte(f, 0) && Byte(n, t + 1) == Byte(f, 1);
      assert Byte(n, t + 2) == Byte(f, 2) && Byte(n, t + 3) == Byte(f, 3);
      assert bytes == Bytes(n, t, 4) && bytes[0] == Byte(n, t + 0);
      b := bytes[0] == 0x7f && bytes[1] == 'E' as int && bytes[2] == 'L' as int && bytes[3] == 'F' as int;
    }

    /** After a successful load both segments and the temporary copy are live memory, and apart. */
    lemma LoadEstablishes(f: Mem, m: Mem, t: int, live: map<int, Block>, dataAddr: int)
      requires Progress(f, m, t, live, AllLoads(f), dataAddr) && AllLoads(f) != [] && 0 < |f|
      requires TablesFound(f) && shstrtab == Add(t, NameTable(f))
      ensures var v := ImageOf(f, elfHdr, LOAD_ADDRESS);
              && Loaded(v) && HeadersLive(v) && ClearOfImage(elfHdr, |f|, v)
              && forall x | v.base <= x < v.base + v.size :: !os.blocks[tempBlock].Has(x)
    {
      hide Word, Half, SegmentAt, AllLoads, MappedMemory, BlocksMapped;
      var ls := AllLoads(f);
      var text := SegmentAt(f, ls[0]).blockSize;
      SegmentBlocks(f, live, ls, dataAddr);
      os.BlockMapped(textBlock, LOAD_ADDRESS, text);
      os.BlocksApart(tempBlock, textBlock);
      if |ls| == 2 {
        var data := SegmentAt(f, ls[1]).blockSize;
        os.BlockMapped(dataBlock, LOAD_ADDRESS + text, data);
        os.BlocksApart(tempBlock, dataBlock);
      }
    }

    /** The blocks of the segments ls, and of the file copy. */
    lemma SegmentBlocks(f: Mem, live: map<int, Block>, ls: seq<int>, dataAddr: int)
      requires BlocksMapped(f, live, ls, dataAddr) && ls != [] && tempBlock in live
      ensures |ls| <= 2 && textBase == LOAD_ADDRESS
      ensures tempBlock in os.blocks && os.blocks[tempBlock] == live[tempBlock] && tempBlock != textBlock
      ensures textBlock in os.blocks && os.blocks[textBlock] == Block(LOAD_ADDRESS, SegmentAt(f, ls[0]).blockSize)
      ensures |ls| == 2 ==>
        && dataBlock in os.blocks && tempBlock != dataBlock
        && os.blocks[dataBlock] == Block(LOAD_ADDRESS + SegmentAt(f, ls[0]).blockSize, SegmentAt(f, ls[1]).blockSize)
    {
      hide SegmentAt;
    }

    /** What so_load leaves: the mapped file, and the blocks of before with three more. */
    lemma AfterLoad(f: Mem, m: Mem, before: map<int, Block>, live: map<int, Block>)
      requires Succeeded(f, m, live) && AllLoads(f) != [] && 0 < |f|
      requires tempBlock !in before && live == before[tempBlock := live[tempBlock]]
      ensures tempBlock in os.blocks
      ensures Memory() == MapAll(m, elfHdr, f, AllLoads(f)) && textBase == LOAD_ADDRESS
      ensures textSize == SegmentAt(f, AllLoads(f)[0]).memSize
      ensures |AllLoads(f)| == 2 ==>
        var data := SegmentAt(f, AllLoads(f)[1]);
        dataBase == Add(data.vaddr, LOAD_ADDRESS) && dataSize == data.memSize
      ensures os.blocks - {tempBlock} == LiveBlocks(before, f, AllLoads(f), textBlock, dataBlock)
      ensures |m| == SPACE && forall u | u in before :: !Overlap(before[u], Block(elfHdr, |f|))
      ensures var v := ImageOf(f, elfHdr, LOAD_ADDRESS);
              && Loaded(v) && HeadersLive(v) && ClearOfImage(elfHdr, |f|, v)
              && forall x | v.base <= x < v.base + v.size :: !os.blocks[tempBlock].Has(x)
    {
      hide Word, Half, SegmentAt, AllLoads, MapAll, Holds, HeadersOk, Loaded, HeadersLive, ClearOfImage, ImageOf;
      var dataAddr :| Progress(f, m, elfHdr, live, AllLoads(f), dataAddr);
      LoadEstablishes(f, m, elfHdr, live, dataAddr);
      LoadOrder(f, live, AllLoads(f), dataAddr);
      CopyApart(f, m, before, live, dataAddr);
    }

    /** The file copy shares no byte with a block from before. */
    lemma CopyApart(f: Mem, m: Mem, before: map<int, Block>, live: map<int, Block>, dataAddr: int)
      requires Progress(f, m, elfHdr, live, AllLoads(f), dataAddr) && AllLoads(f) != []
      requires tempBlock !in before && live == before[tempBlock := live[tempBlock]]
      ensures |m| == SPACE && forall u | u in before :: !Overlap(before[u], Block(elfHdr, |f|))
    {
      hide Word, Half, SegmentAt, AllLoads, HeadersOk, BlocksMapped;
      LoadOrder(f, live, AllLoads(f), dataAddr);
      SegmentBlocks(f, live, AllLoads(f), dataAddr);
      forall u | u in before
        ensures !Overlap(before[u], Block(elfHdr, |f|))
      {
        assert u in live && u != tempBlock && u != textBlock;
        assert u in os.blocks && os.blocks[u] == before[u];
        os.BlocksApart(u, tempBlock);
      }
    }

    /** The blocks of a successful load are placed as the laws of the mapped image ask. */
    lemma PlacedAfterLoad(f: Mem, m: Mem, t: int, live: map<int, Block>, dataAddr: int, x: int, d: int)
      requires Progress(f, m, t, live, AllLoads(f), dataAddr) && SegmentsOk(f) && AllLoads(f) == [x, d] && 0 < |f|
      ensures Headers(f, x, d) && Placed(t, |f|, SegmentAt(f, x), SegmentAt(f, d), LOAD_ADDRESS)
    {
      hide Word, Half, SegmentAt, MappedMemory, HeadersOk, HeaderAt;
      var text, data := SegmentAt(f, x), SegmentAt(f, d);
      MemoryHolds(f, m, t, AllLoads(f));
      assert os.blocks[textBlock] == Block(LOAD_ADDRESS, text.blockSize);
      TwoSegments(f, x, d);
      assert os.blocks[dataBlock] == Block(LOAD_ADDRESS + text.blockSize, data.blockSize);
      assert os.blocks[tempBlock] == live[tempBlock];
      os.BlocksApart(tempBlock, textBlock);
      os.BlocksApart(tempBlock, dataBlock);
    }

    /** The memory that a successful load leaves: the text segment equals the file unless its file range
        holds the top byte of its own p_vaddr, and the data segment unless its file range holds that of
        either.  The rest of both blocks is zero. */
    lemma LoadedBytes(f: Mem, m: Mem, t: int, live: map<int, Block>, dataAddr: int, x: int, d: int)
      requires Progress(f, m, t, live, AllLoads(f), dataAddr) && SegmentsOk(f) && AllLoads(f) == [x, d]
      requires |m| == SPACE && 0 < |f|
      ensures var text, data := SegmentAt(f, x), SegmentAt(f, d);
              && (Copied(Memory(), LOAD_ADDRESS, f, text.offset, text.fileSize) <==>
                    !(text.offset <= HeaderAt(f, x) + 11 < text.offset + text.fileSize))
              && (Copied(Memory(), LOAD_ADDRESS + data.vaddr, f, data.offset, data.fileSize) <==>
                    !(data.offset <= HeaderAt(f, x) + 11 < data.offset + data.fileSize) &&
                    !(data.offset <= HeaderAt(f, d) + 11 < data.offset + data.fileSize))
              && ZeroRest(Memory(), text, data)
    {
      hide Word, Half, SegmentAt, MapAll, HeaderAt, Holds, Headers, Placed, Copied, SegmentsOk, BlocksMapped, AllLoads;
      hide ZeroRest;
      PlacedAfterLoad(f, m, t, live, dataAddr, x, d);
      TextEqualsFile(m, t, f, x, d, SegmentAt(f, x), SegmentAt(f, d));
      DataEqualsFile(m, t, f, x, d, SegmentAt(f, x), SegmentAt(f, d));
      RestIsZero(m, t, f, x, d, SegmentAt(f, x), SegmentAt(f, d));
    }

    /** The same when the text segment is the only one. */
    lemma LoadedAlone(f: Mem, m: Mem, t: int, live: map<int, Block>, dataAddr: int, x: int)
      requires Progress(f, m, t, live, AllLoads(f), dataAddr) && SegmentsOk(f) && AllLoads(f) == [x]
      requires |m| == SPACE && 0 < |f|
      ensures var text := SegmentAt(f, x);
              && (Copied(Memory(), LOAD_ADDRESS, f, text.offset, text.fileSize) <==>
                    !(text.offset <= HeaderAt(f, x) + 11 < text.offset + text.fileSize))
              && forall a | LOAD_ADDRESS + text.fileSize <= a < LOAD_ADDRESS + text.blockSize :: Byte(Memory(), a) == 0
    {
      hide Word, Half, Byte, SegmentAt, MapAll, HeaderAt, Copied, SegmentsOk, AllLoads, BlocksMapped, Holds, HeadersOk;
      var text := SegmentAt(f, x);
      LoadOrder(f, live, AllLoads(f), dataAddr);
      SegmentBlocks(f, live, AllLoads(f), dataAddr);
      os.BlocksApart(tempBlock, textBlock);
      OneSegment(f, x);
      AloneEqualsFile(m, t, f, x, text);
    }

    /** Name, loaded address and size of section i, from its header in the temporary copy. */
    method ReadSection(i: nat, ghost v: Image, ghost m: Mem) returns (name: string, addr: word, size: word)
      requires Loaded(v) && HeadersLive(v) && SectionsOk(m, v) && SameCopy(m, Memory(), v)
      requires i < SectionCount(m, v)
      ensures name == SectionName(m, v, i) && addr == SectionAddr(m, v, i) && size == SectionSize(m, v, i)
    {
      hide Word, Half, Add, CString, Byte, SameCopy;
      os.BlockMapped(tempBlock, v.elf, v.fileSize);
      SameSection(m, Memory(), v, i);
      assert StringIn(m, SectionNameAt(m, v, i), v.elf, v.elf + v.fileSize);
      var nameOffset := os.LoadWord(secHdr + 40 * i);
      name := os.LoadString(shstrtab + nameOffset);
      var vaddr := os.LoadWord(secHdr + 40 * i + 12);
      addr := Add(textBase, vaddr);
      size := os.LoadWord(secHdr + 40 * i + 20);
    }

    /* Relocation */

    /** The body of the innermost loop of so_resolve, for one relocation entry.  The tables still read
        as in memory m, from which so_resolve started; words outside them may have changed. */
    method Relocate(offset: word, info: word, funcs: array<DynLibFunction>, ghost v: Image, ghost m: Mem)
      requires Loaded(v) && WellFormed(m, v) && SameTables(m, Memory(), v)
      requires SymbolExists(v, info) && TargetsClear(m, v, [Decode(m, v, funcs[..], offset, info)])
      modifies os.mem
      ensures Memory() == ApplyReloc(old(Memory()), v.base, Decode(m, v, funcs[..], offset, info))
      ensures os.Valid()
    {
      hide Word, Half, Splice, Add, CString, SymbolTableOk, SectionsOk, TargetsClear, SameTables, Protected;
      ghost var before := Memory();
      ghost var r := Decode(m, v, funcs[..], offset, info);
      var ptr := Add(textBase, offset);
      var kind := info % 0x100;
      var sym := info / 0x100;
      TablesAreParts(m, before, v);
      if r.Writes() {
        TargetMapped(v, m, r);
      }
      if UsesSymbol(kind) {
        SymbolMapped(v, m, sym);
        SameSym(m, before, v, sym);
      }
      if kind == R_ARM_ABS32 {
        var value := os.LoadWord(syms + 16 * sym + 4);
        var word := os.LoadWord(ptr);
        os.StoreWord(ptr, Add(word, Add(textBase, value)));
      } else if kind == R_ARM_RELATIVE {
        var word := os.LoadWord(ptr);
        AddZero(textBase);
        os.StoreWord(ptr, Add(word, textBase));
      } else if IsSlotType(kind) {
        var shndx := os.LoadHalf(syms + 16 * sym + 14);
        if shndx != 0 {
          var value := os.LoadWord(syms + 16 * sym + 4);
          os.StoreWord(ptr, Add(textBase, value));
        } else {
          BindSlot(ptr, offset, sym, funcs, v, m);
        }
      }
    }

    lemma TargetMapped(v: Image, m: Mem, r: Reloc)
      requires Loaded(v) && WellFormed(m, v) && TargetsClear(m, v, [r]) && r.Writes()
      ensures var a := r.Target(v.base);
              os.Mapped(a, 4) && forall x: int | a <= x < a + 4 :: !Protected(m, v, x)
    {
      hide Word, Half, CString, Add, Protected;
      assert r in [r];
      ClearTargetsFit(m, v, [r]);
      assert forall x: int | r.Target(v.base) <= x < r.Target(v.base) + 4 :: r.Covers(v.base, x);
    }

    lemma SymbolMapped(v: Image, m: Mem, sym: nat)
      requires Loaded(v) && SymbolTableOk(m, v) && sym < v.numSyms
      ensures os.Mapped(v.syms + 16 * sym, 16)
    {
      hide Word, CString;
    }

    /** The slot of an undefined symbol: first the crash value, then the import, if there is one.
        The symbol and its name still read as in m after the first store. */
    method BindSlot(ptr: word, offset: word, sym: nat, funcs: array<DynLibFunction>, ghost v: Image, ghost m: Mem)
      requires Loaded(v) && WellFormed(m, v) && SameTables(m, Memory(), v)
      requires sym < v.numSyms
      requires os.Mapped(ptr, 4) && forall x | ptr <= x < ptr + 4 :: !Protected(m, v, x)
      modifies os.mem
      ensures Memory() == SetWord(old(Memory()), ptr, ImportValue(funcs[..], SymName(m, v, sym), offset))
      ensures os.Valid()
    {
      hide Word, Half, Splice, Add, CString;
      ghost var before := Memory();
      os.StoreWord(ptr, offset);
      ghost var crash := Memory();
      assert SameTables(m, crash, v) by {
        forall x | Protected(m, v, x)
          ensures Byte(m, x) == Byte(crash, x)
        {
          SetFrame(before, ptr, offset);
        }
      }
      TablesAreParts(m, crash, v);
      SameSym(m, crash, v, sym);
      var nameOffset := os.LoadWord(syms + 16 * sym);
      assert StringIn(m, SymNameAt(m, v, sym), v.dynstr, v.dynstr + v.dynstrSize);
      var name := os.LoadString(dynstrtab + nameOffset);
      BindImport(ptr, name, funcs);
      SetTwice(before, ptr, offset, ImportValue(funcs[..], name, offset));
    }

    /** The import loop of so_resolve: the slot, which holds the crash value, gets the first function
        of that name. */
    method BindImport(ptr: int, name: string, funcs: array<DynLibFunction>)
      requires os.Valid() && os.Mapped(ptr, 4)
      modifies os.mem
      ensures Memory() ==
        match Bound(funcs[..], name)
        case Some(func) => SetWord(old(Memory()), ptr, func)
        case None => old(Memory())
    {
      for k := 0 to funcs.Length
        invariant Memory() == old(Memory())
        invariant forall j | 0 <= j < k :: funcs[j].symbol != name
      {
        if funcs[k].symbol == name {
          FirstMatchUnique(funcs[..], name, k);
          os.StoreWord(ptr, funcs[k].func);
          return;
        }
      }
      NoMatch(funcs[..], name);
    }

    /** so_resolve.  Both relocation sections are walked while the image they live in is patched; the
        result is the list of their entries, decoded from the memory so_resolve was given, applied
        in order.  What it asks of the image: tables where the headers say, and targets that are
        words of the image outside the tables. */
    method Resolve(funcs: array<DynLibFunction>, ghost v: Image)
      requires Loaded(v) && HeadersLive(v) && WellFormed(Memory(), v) && SymbolsExist(Memory(), v)
      requires TargetsClear(Memory(), v, AllRelocs(Memory(), v, funcs[..]))
      modifies os.mem
      ensures Memory() == ApplyAll(old(Memory()), v.base, AllRelocs(old(Memory()), v, funcs[..]))
      ensures os.Valid()
    {
      hide Word, Half, Splice, Add, CString, Byte;
      ghost var m, fs := Memory(), funcs[..];
      ghost var all := AllRelocs(m, v, fs);
      os.BlockMapped(tempBlock, v.elf, v.fileSize);
      var i := 0;
      var count := os.LoadHalf(elfHdr + 48);
      while i < count
        invariant 0 <= i <= count == SectionCount(m, v)
        invariant os.Valid()
        invariant Memory() == ApplyAll(m, v.base, RelocsUpTo(m, v, fs, i))
      {
        count := ResolveSection(i, funcs, v, m);
        i := i + 1;
      }
    }

    /** One round of the outer loop of so_resolve; the section count is read again for the next. */
    method ResolveSection(i: nat, funcs: array<DynLibFunction>, ghost v: Image, ghost m: Mem) returns (count: int)
      requires Loaded(v) && HeadersLive(v) && WellFormed(m, v) && SymbolsExist(m, v)
      requires TargetsClear(m, v, AllRelocs(m, v, funcs[..])) && i < SectionCount(m, v)
      requires Memory() == ApplyAll(m, v.base, RelocsUpTo(m, v, funcs[..], i))
      modifies os.mem
      ensures Memory() == ApplyAll(m, v.base, RelocsUpTo(m, v, funcs[..], i + 1))
      ensures os.Valid() && count == SectionCount(m, v)
    {
      hide Word, Half, Splice, Add, CString, Byte, Protected, ApplyAll, ApplyReloc, Decode, Entry, AllRelocs;
      hide SymbolsExist, TargetsClear, SymbolTableOk, SameTables, SectionRelocs;
      ghost var fs := funcs[..];
      PrefixKeepsTables(m, v, fs, i, 0);
      TablesAreParts(m, Memory(), v);
      var name, rels, size := ReadSection(i, v, m);
      if IsRelName(name) {
        var j := 0;
        while j < size / 8
          invariant 0 <= j <= size / 8 == EntryCount(m, v, i)
          invariant os.Valid()
          invariant Memory() == ApplyAll(m, v.base, RelocsUpTo(m, v, fs, i) + SectionRelocs(m, v, fs, i, j))
        {
          size := ResolveEntry(rels, i, j, funcs, v, m);
          j := j + 1;
        }
      }
      PrefixKeepsTables(m, v, fs, i + 1, 0);
      TablesAreParts(m, Memory(), v);
      SameCount(m, Memory(), v);
      os.BlockMapped(tempBlock, v.elf, v.fileSize);
      count := os.LoadHalf(elfHdr + 48);
    }

    /** One round of the middle loop; the section size is read again for the next. */
    method ResolveEntry(rels: word, i: nat, j: nat, funcs: array<DynLibFunction>, ghost v: Image, ghost m: Mem)
      returns (size: word)
      requires Loaded(v) && HeadersLive(v) && WellFormed(m, v) && SymbolsExist(m, v)
      requires TargetsClear(m, v, AllRelocs(m, v, funcs[..]))
      requires i < SectionCount(m, v) && j < EntryCount(m, v, i) && rels == SectionAddr(m, v, i)
      requires Memory() == ApplyAll(m, v.base, RelocsUpTo(m, v, funcs[..], i) + SectionRelocs(m, v, funcs[..], i, j))
      modifies os.mem
      ensures Memory() == ApplyAll(m, v.base, RelocsUpTo(m, v, funcs[..], i) + SectionRelocs(m, v, funcs[..], i, j + 1))
      ensures os.Valid() && size == SectionSize(m, v, i)
    {
      hide Word, Half, Splice, Add, CString, Byte, Protected, ApplyAll, ApplyReloc, Decode;
      ghost var fs := funcs[..];
      ghost var done, r := RelocsUpTo(m, v, fs, i) + SectionRelocs(m, v, fs, i, j), Entry(m, v, fs, i, j);
      PrefixKeepsTables(m, v, fs, i, j);
      SameEntry(m, Memory(), v, fs, i, j);
      EntryInTable(m, v, i, j);
      var offset := os.LoadWord(rels + 8 * j);
      var info := os.LoadWord(rels + 8 * j + 4);
      assert r == Decode(m, v, fs, offset, info) && SymbolExists(v, info);
      EntryIsReloc(m, v, fs, SectionCount(m, v), i, j);
      Relocate(offset, info, funcs, v, m);
      ApplyMore(m, v.base, done, r);
      assert done + [r] == RelocsUpTo(m, v, fs, i) + SectionRelocs(m, v, fs, i, j + 1);
      PrefixKeepsTables(m, v, fs, i, j + 1);
      TablesAreParts(m, Memory(), v);
      var _, _, again := ReadSection(i, v, m);
      size := again;
    }

    /* Constructors, lookup, release */

    /** so_excute_init_array: the non-null words of the .init_array sections are called in order, once each.
        The constructors may do anything but overwrite the file copy and the arrays. */
    method ExecuteInitArray(effect: Effect, ghost keep: iset<int>, ghost v: Image)
      requires Loaded(v) && HeadersLive(v) && SectionsOk(Memory(), v)
      requires Harmless(effect, keep) && KeepsArrays(Memory(), v, keep)
      modifies os`calls, os.mem
      ensures os.Valid() && os.calls == old(os.calls) + Constructors(old(Memory()), v)
      ensures |os.calls| == |old(os.calls)| + ConstructorsBefore(old(Memory()), v, SectionCount(old(Memory()), v))
      ensures forall i: nat, j: nat | IsCalled(old(Memory()), v, i, j) ::
                var k := |old(os.calls)| + CallIndex(old(Memory()), v, i, j);
                k < |os.calls| && os.calls[k] == InitEntry(old(Memory()), v, i, j)
      ensures Memory() == RunAll(effect, old(Memory()), Constructors(old(Memory()), v))
    {
      hide Word, Half, CString, SectionSize, InitEntry, SectionCount, CountNonNull, ConstructorsBefore, Constructors;
      hide SectionsOk, Harmless, KeepsArrays, RunAll, SectionName, IsCalled, CallIndex;
      EveryConstructor(Memory(), v);
      WalkArrays(effect, keep, v);
    }

    /** Its loops. */
    method WalkArrays(effect: Effect, ghost keep: iset<int>, ghost v: Image)
      requires Loaded(v) && HeadersLive(v) && SectionsOk(Memory(), v)
      requires Harmless(effect, keep) && KeepsArrays(Memory(), v, keep)
      modifies os`calls, os.mem
      ensures os.Valid() && os.calls == old(os.calls) + Constructors(old(Memory()), v)
      ensures Memory() == RunAll(effect, old(Memory()), Constructors(old(Memory()), v))
    {
      hide Word, Half, Add, CString, Byte, NonNull, SymbolTableOk, SectionsOk, Harmless, KeepsArrays, RunAll, SameCopy;
      ghost var m := Memory();
      HeaderWord(v, m);
      CopyKept(effect, keep, m, v, []);
      NothingRun(effect, m);
      os.BlockMapped(tempBlock, v.elf, v.fileSize);
      var i := 0;
      var count := os.LoadHalf(elfHdr + 48);
      while i < count
        invariant 0 <= i <= count == SectionCount(m, v)
        invariant os.Valid() && os.calls == old(os.calls) + ConstructorsUpTo(m, v, i)
        invariant Memory() == RunAll(effect, m, ConstructorsUpTo(m, v, i))
      {
        CopyKept(effect, keep, m, v, ConstructorsUpTo(m, v, i));
        var name, addr, size := ReadSection(i, v, m);
        if name == ".init_array" {
          CallAll(addr, size / 4, effect, i, v, m, keep);
        }
        i := i + 1;
        CopyKept(effect, keep, m, v, ConstructorsUpTo(m, v, i));
        SameCount(m, Memory(), v);
        count := os.LoadHalf(elfHdr + 48);
      }
    }

    lemma EveryConstructor(m: Mem, v: Image)
      ensures |Constructors(m, v)| == ConstructorsBefore(m, v, SectionCount(m, v))
      ensures forall i: nat, j: nat | IsCalled(m, v, i, j) ::
                var k := CallIndex(m, v, i, j);
                k < |Constructors(m, v)| && Constructors(m, v)[k] == InitEntry(m, v, i, j)
    {
      hide Word, Half, CString, SectionSize, InitEntry, CountNonNull;
      hide ConstructorsBefore, ConstructorsUpTo, SectionCount;
      ConstructorsCount(m, v, SectionCount(m, v));
      forall i: nat, j: nat | IsCalled(m, v, i, j)
        ensures var k := CallIndex(m, v, i, j);
                k < |Constructors(m, v)| && Constructors(m, v)[k] == InitEntry(m, v, i, j)
      {
        ConstructorAt(m, v, SectionCount(m, v), i, j);
      }
    }

    lemma NothingRun(effect: Effect, m: Mem)
      ensures RunAll(effect, m, []) == m
    {
    }

    lemma HeaderWord(v: Image, m: Mem)
      requires SectionsOk(m, v)
      ensures 52 <= v.fileSize && |m| == SPACE
    {
    }

    /** The inner loop of so_excute_init_array, for section i; m is the memory before the first call. */
    method CallAll(addr: word, n: nat, effect: Effect,
                   ghost i: nat, ghost v: Image, ghost m: Mem, ghost keep: iset<int>)
      requires Loaded(v) && SectionsOk(m, v) && i < SectionCount(m, v) && IsInitArray(m, v, i)
      requires addr == SectionAddr(m, v, i) && n == SectionSize(m, v, i) / 4
      requires Harmless(effect, keep) && KeepsArrays(m, v, keep)
      requires Memory() == RunAll(effect, m, ConstructorsUpTo(m, v, i))
      modifies os`calls, os.mem
      ensures os.Valid() && os.calls == old(os.calls) + NonNull(m, v, i, n)
      ensures Memory() == RunAll(effect, m, ConstructorsUpTo(m, v, i) + NonNull(m, v, i, n))
    {
      hide Word, Half, CString, Byte, Harmless, KeepsArrays, RunAll, ConstructorsUpTo;
      ghost var before := ConstructorsUpTo(m, v, i);
      assert before + [] == before;
      for j := 0 to n
        invariant os.Valid() && os.calls == old(os.calls) + NonNull(m, v, i, j)
        invariant Memory() == RunAll(effect, m, before + NonNull(m, v, i, j))
      {
        ghost var done := before + NonNull(m, v, i, j);
        EntryKept(effect, keep, m, v, done, i, j);
        ArrayPlace(m, v, i);
        var entry := os.LoadWord(addr + 4 * j);
        if entry != 0 {
          RunsInSpace(effect, keep, m, done + [entry]);
          RunMore(effect, m, done, entry);
          os.CallGame(entry, effect);
          assert done + [entry] == before + NonNull(m, v, i, j + 1);
        }
      }
    }

    lemma RunsInSpace(effect: Effect, keep: iset<int>, m: Mem, ws: seq<word>)
      requires Harmless(effect, keep) && |m| == SPACE
      ensures |RunAll(effect, m, ws)| == SPACE
    {
      RunKeeps(effect, keep, m, ws);
    }

    lemma ArrayPlace(m: Mem, v: Image, i: nat)
      requires SectionsOk(m, v) && i < SectionCount(m, v) && IsInitArray(m, v, i) && 0 < SectionSize(m, v, i)
      ensures v.base <= SectionAddr(m, v, i) && SectionAddr(m, v, i) + SectionSize(m, v, i) <= v.base + v.size
    {
      hide Word, Half, CString, Byte;
      assert IsLoadedSection(m, v, i);
      assert SectionAddr(m, v, i) == v.base + Word(m, SectionHeader(v, i) + 12);
    }

    /** so_find_addr: the address of the first symbol of that name.  None is the fatal error, which
        does not return.  Only the loaded image is read. */
    method FindAddr(name: string, ghost v: Image) returns (addr: Option<word>)
      requires Loaded(v) && SymbolTableOk(Memory(), v)
      ensures addr == Elf.FindAddr(Memory(), v, name)
    {
      hide Word, Half, CString, Byte, Add;
      ghost var m := Memory();
      for i := 0 to numSyms
        invariant forall k | 0 <= k < i :: SymName(m, v, k) != name
      {
        assert StringIn(m, SymNameAt(m, v, i), v.dynstr, v.dynstr + v.dynstrSize);
        var nameOffset := os.LoadWord(syms + 16 * i);
        var symbol := os.LoadString(dynstrtab + nameOffset);
        if symbol == name {
          var value := os.LoadWord(syms + 16 * i + 4);
          FindSymUnique(m, v, name, i);
          return Some(Add(textBase, value));
        }
      }
      assert FindSym(m, v, name, 0) == -1;
      addr := None;
    }

    /** so_free_temp.  The loaded image does not change. */
    method FreeTemp(ghost v: Image)
      requires Loaded(v) && HeadersLive(v)
      requires forall x | v.base <= x < v.base + v.size :: !os.blocks[tempBlock].Has(x)
      modifies os`blocks, os`frees, os.mem
      ensures Loaded(v) && tempBlock !in os.blocks
      ensures os.frees == old(os.frees) + [tempBlock]
      ensures os.blocks == old(os.blocks) - {tempBlock}
      ensures forall x | v.base <= x < v.base + v.size :: Byte(Memory(), x) == Byte(old(Memory()), x)
    {
      os.FreeBlock(tempBlock);
    }
  }
}
